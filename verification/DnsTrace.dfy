/** Hops of a `dig +trace` output (src/command/dns/parse.rs, `parse_trace_hops`), from classified
    lines: what the regular expressions and the answer-line parser say about a line is given. */
module DnsTrace {
  import opened Wrappers

  datatype DnsAnswer = DnsAnswer(name: string, ttl: nat, cls: string, recordType: string, value: string)

  /** `Received` is a ";;" line that names a resolver and a time, `Comment` any other ";;" line,
      `Ignored` a line that is no answer. An unreadable time counts as 0. */
  datatype Line = Empty | Received(resolver: string, total: nat) | Comment | Answer(answer: DnsAnswer) | Ignored

  datatype TraceHop = TraceHop(answers: seq<DnsAnswer>, total: nat, resolver: Option<string>)

  // ---- Specification ----

  /** The lines split at empty lines. */
  function Blocks(lines: seq<Line>): (r: seq<seq<Line>>)
    ensures r != []
  {
    if lines == [] then [[]]
    else
      AddLine(Blocks(lines[..|lines| - 1]), lines[|lines| - 1])
  }

  /** An empty line starts a new block, any other line joins the last one. */
  function AddLine(bs: seq<seq<Line>>, l: Line): (r: seq<seq<Line>>)
    requires bs != []
    ensures r != []
  {
    if l.Empty? then bs + [[]] else bs[..|bs| - 1] + [bs[|bs| - 1] + [l]]
  }

  function Answers(block: seq<Line>): seq<DnsAnswer> {
    if block == [] then []
    else Answers(block[..|block| - 1])
         + if block[|block| - 1].Answer? then [block[|block| - 1].answer] else []
  }

  /** The block's last line that names a resolver. */
  function LastReceived(block: seq<Line>): (r: Option<Line>)
    ensures r.Some? ==> r.value.Received?
  {
    if block == [] then None
    else if block[|block| - 1].Received? then Some(block[|block| - 1])
    else LastReceived(block[..|block| - 1])
  }

  function HopOf(block: seq<Line>): TraceHop {
    match LastReceived(block)
    case None => TraceHop(Answers(block), 0, None)
    case Some(l) => TraceHop(Answers(block), l.total, Some(l.resolver))
  }

  predicate Keep(block: seq<Line>) { Answers(block) != [] || LastReceived(block).Some? }

  function HopsOf(blocks: seq<seq<Line>>): seq<TraceHop> {
    if blocks == [] then []
    else HopsOf(blocks[..|blocks| - 1])
         + if Keep(blocks[|blocks| - 1]) then [HopOf(blocks[|blocks| - 1])] else []
  }

  // ---- The parser ----

  /** The `push_hop` closure: empties the accumulators into a new hop if there is anything to keep. */
  method PushHop(hops: seq<TraceHop>, answers: seq<DnsAnswer>, total: nat, resolver: Option<string>)
    returns (hops': seq<TraceHop>, answers': seq<DnsAnswer>, total': nat, resolver': Option<string>)
    ensures if answers != [] || resolver.Some?
            then && hops' == hops + [TraceHop(answers, total, resolver)]
                 && answers' == [] && total' == 0 && resolver' == None
            else hops' == hops && answers' == answers && total' == total && resolver' == resolver
  {
    hops', answers', total', resolver' := hops, answers, total, resolver;
    if answers != [] || resolver.Some? {
      hops' := hops + [TraceHop(answers, total, resolver)];
      answers', total', resolver' := [], 0, None;
    }
  }

  /** One hop for every block that has an answer or names a resolver, in order. */
  method ParseTraceHops(lines: seq<Line>) returns (hops: seq<TraceHop>)
    ensures hops == HopsOf(Blocks(lines))
  {
    hops := [];
    var answers: seq<DnsAnswer>, total: nat, resolver: Option<string> := [], 0, None;
    assert Blocks(lines[..0])[..0] == [];
    for i := 0 to |lines|
      invariant Accumulated(Blocks(lines[..i]), hops, answers, total, resolver)
    {
      assert lines[..i + 1][..i] == lines[..i];
      assert Blocks(lines[..i + 1]) == AddLine(Blocks(lines[..i]), lines[i]);
      hide *;
      CurrentBlock(Blocks(lines[..i]), lines[i], hops, answers, total, resolver);
      match lines[i]
      case Empty =>
        hops, answers, total, resolver := PushHop(hops, answers, total, resolver);
      case Received(r, t) =>
        resolver, total := Some(r), t;
      case Answer(a) =>
        answers := answers + [a];
      case _ =>
    }
    assert lines[..|lines|] == lines;
    hide *;
    CurrentBlock(Blocks(lines), Empty, hops, answers, total, resolver);
    hops, answers, total, resolver := PushHop(hops, answers, total, resolver);
  }

  /** The parser's variables: the hops of the finished blocks, and what the current block holds. */
  ghost predicate Accumulated(bs: seq<seq<Line>>, hops: seq<TraceHop>, answers: seq<DnsAnswer>, total: nat,
                              resolver: Option<string>)
    requires bs != []
  {
    hops == HopsOf(bs[..|bs| - 1]) && TraceHop(answers, total, resolver) == HopOf(bs[|bs| - 1])
  }

  lemma {:induction false} CurrentBlock(bs: seq<seq<Line>>, l: Line, hops: seq<TraceHop>,
                                        answers: seq<DnsAnswer>, total: nat, resolver: Option<string>)
    requires bs != [] && Accumulated(bs, hops, answers, total, resolver)
    ensures var all := hops + [TraceHop(answers, total, resolver)];
            var keep := answers != [] || resolver.Some?;
            && HopsOf(bs) == (if keep then all else hops)
            && match l
               case Empty =>
                 if keep then Accumulated(AddLine(bs, l), all, [], 0, None)
                 else Accumulated(AddLine(bs, l), hops, answers, total, resolver)
               case Received(r, t) => Accumulated(AddLine(bs, l), hops, answers, t, Some(r))
               case Answer(a) => Accumulated(AddLine(bs, l), hops, answers + [a], total, resolver)
               case _ => Accumulated(AddLine(bs, l), hops, answers, total, resolver)
  {
    if l.Empty? {
      assert (bs + [[]])[..|bs|] == bs;
    } else {
      ExtendBlock(bs, l);
    }
    hide Answers;
  }

  lemma {:induction false} ExtendBlock(bs: seq<seq<Line>>, l: Line)
    requires bs != []
    ensures var last := bs[|bs| - 1] + [l];
            var bs' := bs[..|bs| - 1] + [last];
            && bs'[..|bs'| - 1] == bs[..|bs| - 1] && bs'[|bs'| - 1] == last
            && Answers(last) == Answers(bs[|bs| - 1]) + (if l.Answer? then [l.answer] else [])
            && LastReceived(last) == if l.Received? then Some(l) else LastReceived(bs[|bs| - 1])
  {
    assert (bs[|bs| - 1] + [l])[..|bs[|bs| - 1]|] == bs[|bs| - 1];
  }

  // ---- What the hops mean ----

  function JoinBlocks(blocks: seq<seq<Line>>): seq<Line> {
    if blocks == [] then []
    else if |blocks| == 1 then blocks[0]
    else JoinBlocks(blocks[..|blocks| - 1]) + [Empty] + blocks[|blocks| - 1]
  }

  /** Splitting loses nothing: the blocks contain no empty line, and joined by empty lines they are the
      input again. */
  lemma {:induction false} BlocksPartitionLines(lines: seq<Line>)
    ensures JoinBlocks(Blocks(lines)) == lines
    ensures forall b :: b in Blocks(lines) ==> Empty !in b
  {
    if lines != [] {
      var n := |lines| - 1;
      BlocksPartitionLines(lines[..n]);
      var bs, l := Blocks(lines[..n]), lines[n];
      var bs' := Blocks(lines);
      assert lines == lines[..n] + [l];
      if l.Empty? {
        assert bs'[..|bs'| - 1] == bs;
      } else {
        assert bs'[..|bs'| - 1] == bs[..|bs| - 1];
        forall b | b in bs'
          ensures Empty !in b
        {
          assert bs[|bs| - 1] in bs;
        }
      }
    }
  }

  function AllAnswers(hops: seq<TraceHop>): seq<DnsAnswer> {
    if hops == [] then [] else AllAnswers(hops[..|hops| - 1]) + hops[|hops| - 1].answers
  }

  function BlockAnswers(blocks: seq<seq<Line>>): seq<DnsAnswer> {
    if blocks == [] then [] else BlockAnswers(blocks[..|blocks| - 1]) + Answers(blocks[|blocks| - 1])
  }

  lemma {:induction false} AllAnswersAppend(hops: seq<TraceHop>, h: TraceHop)
    ensures AllAnswers(hops + [h]) == AllAnswers(hops) + h.answers
  {
    assert (hops + [h])[..|hops|] == hops;
  }

  lemma {:induction false} HopsCarryBlockAnswers(blocks: seq<seq<Line>>)
    ensures AllAnswers(HopsOf(blocks)) == BlockAnswers(blocks)
  {
    if blocks == [] {
      assert HopsOf(blocks) == [];
    } else {
      var n := |blocks| - 1;
      var front, last := HopsOf(blocks[..n]), blocks[n];
      HopsCarryBlockAnswers(blocks[..n]);
      AllAnswersAppend(front, HopOf(last));
      if Keep(last) {
        assert HopsOf(blocks) == front + [HopOf(last)];
      } else {
        assert HopsOf(blocks) == front;
      }
    }
  }

  lemma {:induction false} BlockAnswersSplit(bs: seq<seq<Line>>)
    requires bs != []
    ensures BlockAnswers(bs) == BlockAnswers(bs[..|bs| - 1]) + Answers(bs[|bs| - 1])
  {
  }

  lemma {:induction false} BlocksCarryAnswers(lines: seq<Line>)
    ensures BlockAnswers(Blocks(lines)) == Answers(lines)
  {
    var bs' := Blocks(lines);
    BlockAnswersSplit(bs');
    if lines == [] {
      assert bs' == [[]] && bs'[..|bs'| - 1] == [];
    } else {
      var n := |lines| - 1;
      var bs := Blocks(lines[..n]);
      BlocksCarryAnswers(lines[..n]);
      BlockAnswersSplit(bs);
      assert Answers(lines) == Answers(lines[..n]) + if lines[n].Answer? then [lines[n].answer] else [];
      if lines[n].Empty? {
        assert bs' == bs + [[]];
        assert bs'[..|bs'| - 1] == bs;
      } else {
        ExtendBlock(bs, lines[n]);
        hide BlockAnswers;
        hide Answers;
      }
    }
  }

  /** The answers of all hops, joined, are exactly the answer lines in their order. */
  lemma {:induction false} NoAnswerIsLost(lines: seq<Line>)
    ensures AllAnswers(HopsOf(Blocks(lines))) == Answers(lines)
  {
    HopsCarryBlockAnswers(Blocks(lines));
    BlocksCarryAnswers(lines);
  }

  /** Every hop has an answer or a resolver; without a resolver its time is 0; there is at most one
      hop more than there are empty lines. */
  lemma {:induction false} HopsAreMeaningful(blocks: seq<seq<Line>>)
    ensures |HopsOf(blocks)| <= |blocks|
    ensures forall h :: h in HopsOf(blocks) ==>
              && (h.answers != [] || h.resolver.Some?)
              && (h.resolver.None? ==> h.total == 0)
  {
    if blocks != [] { HopsAreMeaningful(blocks[..|blocks| - 1]); }
  }

  /** A hop's resolver and time come from the last line of its block that names a resolver. */
  lemma {:induction false} ResolverIsTheLast(block: seq<Line>, k: nat)
    requires k < |block| && block[k].Received?
    requires forall j :: k < j < |block| ==> !block[j].Received?
    ensures HopOf(block).resolver == Some(block[k].resolver) && HopOf(block).total == block[k].total
    ensures Keep(block)
  {
    if k < |block| - 1 { ResolverIsTheLast(block[..|block| - 1], k); }
  }

  /** The answers of some lines: of an answer line its answer, of any other line none, of several what
      they have together. */
  lemma {:induction false} AnswersOfParts(a: seq<Line>, b: seq<Line>, l: Line)
    ensures Answers([l]) == match l case Answer(x) => [x] case _ => []
    ensures Answers(a + b) == Answers(a) + Answers(b)
  {
    assert [l][..0] == [];
    if b == [] {
      assert a + b == a;
    } else {
      var n := |b| - 1;
      AnswersOfParts(a, b[..n], l);
      assert (a + b)[..|a + b| - 1] == a + b[..n];
    }
  }

  /** A block that names no resolver gives a hop without one. */
  lemma {:induction false} NoResolverNamed(block: seq<Line>)
    requires forall j :: 0 <= j < |block| ==> !block[j].Received?
    ensures HopOf(block).resolver == None && HopOf(block).total == 0
    ensures Keep(block) <==> exists j :: 0 <= j < |block| && block[j].Answer?
  {
    NothingReceived(block);
    AnyAnswer(block);
  }

  lemma {:induction false} NothingReceived(block: seq<Line>)
    requires forall j :: 0 <= j < |block| ==> !block[j].Received?
    ensures LastReceived(block) == None
  {
    if block != [] { NothingReceived(block[..|block| - 1]); }
  }

  lemma {:induction false} AnyAnswer(block: seq<Line>)
    ensures Answers(block) != [] <==> exists j :: 0 <= j < |block| && block[j].Answer?
  {
    if block != [] {
      var n := |block| - 1;
      AnyAnswer(block[..n]);
      assert forall j :: 0 <= j < n ==> block[..n][j] == block[j];
    }
  }

  /** How many of the first `k` blocks give a hop: those with an answer or a resolver. */
  function Giving(blocks: seq<seq<Line>>, k: nat): nat
    requires k <= |blocks|
  {
    if k == 0 then 0
    else
      var b := blocks[k - 1];
      Giving(blocks, k - 1) + if exists l :: l in b && (l.Answer? || l.Received?) then 1 else 0
  }

  lemma {:induction false} KeepExactlyWhen(block: seq<Line>)
    ensures Keep(block) <==> exists l :: l in block && (l.Answer? || l.Received?)
  {
    AnyAnswer(block);
    if j :| 0 <= j < |block| && block[j].Answer? { assert block[j] in block; }
    if l :| l in block && l.Received? {
      var j :| 0 <= j < |block| && block[j] == l;
      SomeReceived(block, j);
    }
    if l :| l in block && l.Answer? {
      var j :| 0 <= j < |block| && block[j] == l;
    }
    if LastReceived(block).Some? { ReceivedIsThere(block); }
  }

  lemma {:induction false} SomeReceived(block: seq<Line>, j: nat)
    requires j < |block| && block[j].Received?
    ensures LastReceived(block).Some?
  {
    if j < |block| - 1 { SomeReceived(block[..|block| - 1], j); }
  }

  lemma {:induction false} ReceivedIsThere(block: seq<Line>)
    requires LastReceived(block).Some?
    ensures LastReceived(block).value in block
  {
    if !block[|block| - 1].Received? { ReceivedIsThere(block[..|block| - 1]); }
  }

  /** One hop for each such block, at its place among them, with the block's own answers. */
  lemma {:induction false} HopsByBlock(blocks: seq<seq<Line>>, k: nat)
    requires k < |blocks|
    ensures |HopsOf(blocks)| == Giving(blocks, |blocks|)
    ensures (exists l :: l in blocks[k] && (l.Answer? || l.Received?)) ==>
              && Giving(blocks, k) < |HopsOf(blocks)|
              && HopsOf(blocks)[Giving(blocks, k)] == HopOf(blocks[k])
              && HopOf(blocks[k]).answers == Answers(blocks[k])
    decreases |blocks|
  {
    HopCount(blocks);
    var n := |blocks| - 1;
    KeepExactlyWhen(blocks[k]);
    GivingPrefix(blocks, n, k);
    if k < n {
      HopsByBlock(blocks[..n], k);
    } else {
      HopCount(blocks[..n]);
      GivingPrefix(blocks, n, n);
    }
    hide Giving;
  }

  lemma {:induction false} HopCount(blocks: seq<seq<Line>>)
    ensures |HopsOf(blocks)| == Giving(blocks, |blocks|)
  {
    if blocks != [] {
      var n := |blocks| - 1;
      HopCount(blocks[..n]);
      KeepExactlyWhen(blocks[n]);
      GivingPrefix(blocks, n, n);
    }
  }

  lemma {:induction false} GivingPrefix(blocks: seq<seq<Line>>, n: nat, k: nat)
    requires k <= n <= |blocks|
    ensures Giving(blocks[..n], k) == Giving(blocks, k)
  {
    if k > 0 { GivingPrefix(blocks, n, k - 1); }
  }
}
