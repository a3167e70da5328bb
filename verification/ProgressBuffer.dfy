/** Buffering of progress output between two events (src/util/progress_buffer.rs). */
module ProgressBuffering {
  import opened Wrappers
  import opened Utf8

  type Field = string
  type Text = seq<byte>

  datatype Mode = Append | Diff | Overwrite

  /** The two maps of a `ProgressBuffer`. */
  datatype Progress = Progress(buffer: map<Field, Text>, offset: map<Field, nat>)

  function OffsetOf(p: Progress, f: Field): nat { if f in p.offset then p.offset[f] else 0 }

  function PushField(mode: Mode, p: Progress, f: Field, v: Text): Progress {
    if mode.Append? && f in p.buffer then p.(buffer := p.buffer[f := p.buffer[f] + v])
    else p.(buffer := p.buffer[f := v])
  }

  /** `value[offset..]` does not panic. */
  predicate Sliceable(v: Text, offset: nat) { offset <= |v| && IsCharBoundary(v, offset) }

  /** Taking in Diff mode panics unless every field can be sliced at its offset. */
  ghost predicate CanTake(mode: Mode, p: Progress) {
    mode.Diff? ==> forall f :: f in p.buffer ==> Sliceable(p.buffer[f], OffsetOf(p, f))
  }

  ghost function Taken(mode: Mode, p: Progress): map<Field, Text>
    requires CanTake(mode, p)
  {
    if mode.Diff? then map f | f in p.buffer :: p.buffer[f][OffsetOf(p, f)..] else p.buffer
  }

  ghost function AfterTake(mode: Mode, p: Progress): Progress {
    if mode.Diff? then Progress(p.buffer, p.offset + map f | f in p.buffer :: |p.buffer[f]|)
    else p.(buffer := map[])
  }

  /** A Diff-mode take that still has to visit `pending`. */
  ghost predicate PartlyTaken(start: Progress, diff: map<Field, Text>, offset: map<Field, nat>, pending: set<Field>) {
    && pending <= start.buffer.Keys
    && diff.Keys == start.buffer.Keys - pending
    && (forall f :: f in diff ==>
          Sliceable(start.buffer[f], OffsetOf(start, f)) && diff[f] == start.buffer[f][OffsetOf(start, f)..])
    && offset.Keys == start.offset.Keys + diff.Keys
    && (forall f :: f in offset ==> offset[f] == if f in diff then |start.buffer[f]| else start.offset[f])
  }

  lemma {:induction false} TakeField(start: Progress, diff: map<Field, Text>, offset: map<Field, nat>,
                                     pending: set<Field>, f: Field)
    requires PartlyTaken(start, diff, offset, pending) && f in pending
    ensures f in start.buffer && OffsetOf(start, f) == if f in offset then offset[f] else 0
    ensures var v, from := start.buffer[f], OffsetOf(start, f);
            Sliceable(v, from) ==> PartlyTaken(start, diff[f := v[from..]], offset[f := |v|], pending - {f})
  {
    hide Sliceable;
  }

  lemma {:induction false} TakenAll(start: Progress, diff: map<Field, Text>, offset: map<Field, nat>)
    requires PartlyTaken(start, diff, offset, {})
    ensures CanTake(Diff, start) && diff == Taken(Diff, start)
    ensures Progress(start.buffer, offset) == AfterTake(Diff, start)
  {
    assert diff.Keys == start.buffer.Keys;
    hide Sliceable;
  }

  class ProgressBuffer {
    var buffer: map<Field, Text>
    var offset: map<Field, nat>
    const mode: Mode
    var isFirst: bool

    ghost function State(): Progress
      reads this
    {
      Progress(buffer, offset)
    }

    constructor (mode: Mode)
      ensures State() == Progress(map[], map[]) && this.mode == mode && isFirst
    {
      this.mode, buffer, offset, isFirst := mode, map[], map[], true;
    }

    method Push(field: Field, value: Text)
      modifies this
      ensures State() == PushField(mode, old(State()), field, value) && isFirst == old(isFirst)
    {
      match mode
      case Append =>
        if field in buffer {
          buffer := buffer[field := buffer[field] + value];
        } else {
          buffer := buffer[field := value];
        }
      case _ =>
        buffer := buffer[field := value];
    }

    /** `None` stands for a panic while slicing. The fields are visited in no particular order. */
    method TakeProgress() returns (r: Option<map<Field, Text>>)
      modifies this
      ensures r.Some? <==> CanTake(mode, old(State()))
      ensures r.Some? ==> r.value == Taken(mode, old(State())) && State() == AfterTake(mode, old(State()))
      ensures isFirst == old(isFirst)
    {
      if !mode.Diff? {
        var out := buffer;
        buffer := map[];
        return Some(out);
      }
      ghost var start := State();
      var diff: map<Field, Text> := map[];
      var pending := buffer.Keys;
      assert PartlyTaken(start, diff, offset, pending);
      while pending != {}
        invariant pending <= buffer.Keys && buffer == start.buffer && isFirst == old(isFirst)
        invariant PartlyTaken(start, diff, offset, pending)
        decreases |pending|
      {
        var field :| field in pending;
        var value := buffer[field];
        var from := if field in offset then offset[field] else 0;
        hide PartlyTaken;
        TakeField(start, diff, offset, pending, field);
        if !Sliceable(value, from) {
          return None;
        }
        diff := diff[field := value[from..]];
        offset := offset[field := |value|];
        pending := pending - {field};
      }
      TakenAll(start, diff, offset);
      return Some(diff);
    }

    method IsFirstProgress() returns (f: bool)
      modifies this`isFirst
      ensures f == old(isFirst) && !isFirst
    {
      f := isFirst;
      isFirst := false;
    }
  }

  // ---- Histories ----

  datatype Call = Push(field: Field, value: Text) | Take

  /** The buffer and everything taken so far. */
  datatype History = History(progress: Progress, taken: seq<map<Field, Text>>)

  /** The history after `calls`; `None` if one of them panicked. */
  ghost function Run(mode: Mode, calls: seq<Call>): Option<History> {
    if calls == [] then Some(History(Progress(map[], map[]), []))
    else
      var h := Run(mode, calls[..|calls| - 1]);
      if h.None? then None
      else
        var p := h.value.progress;
        match calls[|calls| - 1]
        case Push(f, v) => Some(h.value.(progress := PushField(mode, p, f, v)))
        case Take =>
          if CanTake(mode, p) then Some(History(AfterTake(mode, p), h.value.taken + [Taken(mode, p)])) else None
  }

  function Lookup(m: map<Field, Text>, f: Field): Text { if f in m then m[f] else [] }

  /** All the text taken for a field, joined. */
  function Sent(taken: seq<map<Field, Text>>, f: Field): Text {
    if taken == [] then [] else Sent(taken[..|taken| - 1], f) + Lookup(taken[|taken| - 1], f)
  }

  /** All the text pushed for a field, joined. */
  function Pushed(calls: seq<Call>, f: Field): Text {
    if calls == [] then []
    else
      var c := calls[|calls| - 1];
      Pushed(calls[..|calls| - 1], f) + if c.Push? && c.field == f then c.value else []
  }

  lemma {:induction false} SentAppend(taken: seq<map<Field, Text>>, m: map<Field, Text>, f: Field)
    ensures Sent(taken + [m], f) == Sent(taken, f) + Lookup(m, f)
  {
    assert (taken + [m])[..|taken|] == taken;
  }

  lemma {:induction false} AppendStep(p: Progress, f: Field, g: Field, v: Text)
    ensures Lookup(PushField(Append, p, g, v).buffer, f) == Lookup(p.buffer, f) + if f == g then v else []
  {
  }

  /** Append mode: what was taken, followed by what is still buffered, is everything pushed. */
  lemma {:induction false} AppendSendsEverything(calls: seq<Call>, f: Field)
    ensures Run(Append, calls).Some?
    ensures var h := Run(Append, calls).value;
            Sent(h.taken, f) + Lookup(h.progress.buffer, f) == Pushed(calls, f)
  {
    if calls != [] {
      var n := |calls| - 1;
      AppendSendsEverything(calls[..n], f);
      var h := Run(Append, calls[..n]).value;
      match calls[n]
      case Push(g, v) =>
        AppendStep(h.progress, f, g, v);
        hide PushField;
        hide Lookup;
      case Take =>
        SentAppend(h.taken, h.progress.buffer, f);
        hide Sent;
    }
  }

  /** The last value pushed for a field since the last take. */
  function LastPush(calls: seq<Call>, f: Field): Option<Text> {
    if calls == [] || calls[|calls| - 1].Take? then None
    else if calls[|calls| - 1].field == f then Some(calls[|calls| - 1].value)
    else LastPush(calls[..|calls| - 1], f)
  }

  /** Overwrite mode: a take yields, for exactly the fields pushed since the previous take, the last
      value pushed. */
  lemma {:induction false} OverwriteSendsTheLast(calls: seq<Call>, f: Field)
    ensures Run(Overwrite, calls).Some? && CanTake(Overwrite, Run(Overwrite, calls).value.progress)
    ensures var out := Taken(Overwrite, Run(Overwrite, calls).value.progress);
            && (f in out <==> LastPush(calls, f).Some?)
            && (f in out ==> Some(out[f]) == LastPush(calls, f))
  {
    if calls != [] { OverwriteSendsTheLast(calls[..|calls| - 1], f); }
  }

  /** Every pushed value is valid UTF-8 and extends the field's previous one. */
  ghost predicate Extending(calls: seq<Call>) {
    calls == []
    || (Extending(calls[..|calls| - 1])
        && (calls[|calls| - 1].Push? ==>
              var c := calls[|calls| - 1];
              Valid(c.value) && Previous(calls[..|calls| - 1], c.field) <= c.value))
  }

  /** The last value pushed for a field. */
  function Previous(calls: seq<Call>, f: Field): Text {
    if calls == [] then []
    else
      var c := calls[|calls| - 1];
      if c.Push? && c.field == f then c.value else Previous(calls[..|calls| - 1], f)
  }

  /** The text sent for a field is a prefix of its current value, as long as the offset. */
  ghost predicate InStep(h: History, calls: seq<Call>, f: Field) {
    var v := Lookup(h.progress.buffer, f);
    && v == Previous(calls, f) && Valid(v)
    && OffsetOf(h.progress, f) <= |v|
    && Sent(h.taken, f) == v[..OffsetOf(h.progress, f)]
    && Valid(Sent(h.taken, f))
  }

  lemma {:induction false} DiffPushKeeps(calls: seq<Call>, c: Call, h: History, f: Field)
    requires c.Push? && InStep(h, calls, f) && Valid(c.value) && Previous(calls, c.field) <= c.value
    ensures InStep(h.(progress := PushField(Diff, h.progress, c.field, c.value)), calls + [c], f)
  {
    assert (calls + [c])[..|calls|] == calls;
    if f == c.field {
      var v := Lookup(h.progress.buffer, f);
      assert v == c.value[..|v|];
    }
  }

  lemma {:induction false} DiffTakeKeeps(calls: seq<Call>, h: History, f: Field)
    requires InStep(h, calls, f) && CanTake(Diff, h.progress)
    ensures InStep(History(AfterTake(Diff, h.progress), h.taken + [Taken(Diff, h.progress)]), calls + [Take], f)
  {
    assert (calls + [Take])[..|calls|] == calls;
    var v, from := Lookup(h.progress.buffer, f), OffsetOf(h.progress, f);
    SentAppend(h.taken, Taken(Diff, h.progress), f);
    TakenField(h.progress, f);
    hide Sent;
    hide Taken;
    hide AfterTake;
    hide Lookup;
    assert v[..from] + v[from..] == v == v[..|v|];
  }

  lemma {:induction false} TakenField(p: Progress, f: Field)
    requires CanTake(Diff, p) && OffsetOf(p, f) <= |Lookup(p.buffer, f)|
    ensures Lookup(Taken(Diff, p), f) == Lookup(p.buffer, f)[OffsetOf(p, f)..]
    ensures AfterTake(Diff, p).buffer == p.buffer
    ensures OffsetOf(AfterTake(Diff, p), f) == |Lookup(p.buffer, f)|
  {
  }

  lemma {:induction false} InStepIsSliceable(h: History, calls: seq<Call>, f: Field)
    requires InStep(h, calls, f)
    ensures Sliceable(Lookup(h.progress.buffer, f), OffsetOf(h.progress, f))
  {
    BoundaryIffValidPrefix(Lookup(h.progress.buffer, f), OffsetOf(h.progress, f));
  }

  lemma {:induction false} DiffStep(calls: seq<Call>, c: Call, h: History, f: Field)
    requires Run(Diff, calls) == Some(h) && CanTake(Diff, h.progress) && InStep(h, calls, f)
    requires c.Push? ==> Valid(c.value) && Previous(calls, c.field) <= c.value
    ensures Run(Diff, calls + [c]).Some?
    ensures InStep(Run(Diff, calls + [c]).value, calls + [c], f)
  {
    RunLast(calls, c);
    hide *;
    match c
    case Push(_, _) => DiffPushKeeps(calls, c, h, f);
    case Take => DiffTakeKeeps(calls, h, f);
  }

  /** Diff mode: when each value extends the previous one, no take panics, the offset stays within the
      value, and the text sent is the part of the value up to the offset. */
  lemma {:induction false} DiffSendsPrefix(calls: seq<Call>)
    requires Extending(calls)
    ensures Run(Diff, calls).Some? && CanTake(Diff, Run(Diff, calls).value.progress)
    ensures forall f :: InStep(Run(Diff, calls).value, calls, f)
  {
    if calls != [] {
      var n := |calls| - 1;
      DiffSendsPrefix(calls[..n]);
      assert calls == calls[..n] + [calls[n]];
      hide *;
      forall f
        ensures Run(Diff, calls).Some? && InStep(Run(Diff, calls).value, calls, f)
      {
        assert InStep(Run(Diff, calls[..n]).value, calls[..n], f);
        DiffStep(calls[..n], calls[n], Run(Diff, calls[..n]).value, f);
      }
      assert Run(Diff, calls).Some? by {
        DiffStep(calls[..n], calls[n], Run(Diff, calls[..n]).value, "");
      }
    }
    DiffCanTake(Run(Diff, calls).value, calls);
  }

  lemma {:induction false} DiffCanTake(h: History, calls: seq<Call>)
    requires forall f :: InStep(h, calls, f)
    ensures CanTake(Diff, h.progress)
  {
    forall f | f in h.progress.buffer
      ensures Sliceable(h.progress.buffer[f], OffsetOf(h.progress, f))
    {
      InStepIsSliceable(h, calls, f);
    }
  }

  /** Hence right after a take the receiver has the field's whole value. */
  lemma {:induction false} DiffReconstructs(calls: seq<Call>, f: Field)
    requires Extending(calls + [Take])
    ensures Run(Diff, calls + [Take]).Some?
    ensures Sent(Run(Diff, calls + [Take]).value.taken, f) == Previous(calls, f)
  {
    DiffSendsPrefix(calls + [Take]);
    assert (calls + [Take])[..|calls|] == calls;
    var h := Run(Diff, calls + [Take]).value;
    assert InStep(h, calls + [Take], f);
    assert Extending(calls);
    DiffSendsPrefix(calls);
    assert InStep(Run(Diff, calls).value, calls, f);
    var v := Lookup(h.progress.buffer, f);
    assert f in h.progress.buffer ==> OffsetOf(h.progress, f) == |v|;
    assert v[..OffsetOf(h.progress, f)] == v;
  }

  /** Without that condition the next take can panic: a shorter value after a take. This is about the
      public type; no other part of the program creates one, so no received input leads here. */
  lemma {:induction false} DiffCanPanic()
    ensures Run(Diff, [Push("f", [0x61]), Take, Push("f", []), Take]) == None
  {
    var c1 := [Push("f", [0x61])];
    var c2 := c1 + [Take];
    var c3 := c2 + [Push("f", [])];
    var c4 := c3 + [Take];
    RunLast([], Push("f", [0x61]));
    assert [] + [Push("f", [0x61])] == c1;
    var p1 := Run(Diff, c1).value.progress;
    assert p1.buffer == map["f" := [0x61]] && p1.offset == map[];
    RunLast(c1, Take);
    var p2 := Run(Diff, c2).value.progress;
    assert OffsetOf(p2, "f") == 1;
    RunLast(c2, Push("f", []));
    var p3 := Run(Diff, c3).value.progress;
    assert "f" in p3.buffer && p3.buffer["f"] == [] && OffsetOf(p3, "f") == 1;
    RunLast(c3, Take);
    assert c4 == [Push("f", [0x61]), Take, Push("f", []), Take];
  }

  lemma {:induction false} RunLast(calls: seq<Call>, c: Call)
    ensures Run(Diff, calls + [c]) ==
            (var h := Run(Diff, calls);
             if h.None? then None
             else match c
                  case Push(f, v) => Some(h.value.(progress := PushField(Diff, h.value.progress, f, v)))
                  case Take =>
                    if CanTake(Diff, h.value.progress)
                    then Some(History(AfterTake(Diff, h.value.progress),
                                      h.value.taken + [Taken(Diff, h.value.progress)]))
                    else None)
  {
    assert (calls + [c])[..|calls|] == calls;
  }
}
