/**
 The life of shared, reference-counted data: a state machine over make, split, copy and
 destroy, as their contracts describe them.
 */
module SharedBuckets {
  import opened Buckets

  /** An identifier stands for the address of a bucket, `data` for that of the shared resource. */
  datatype State = State(
    count: map<nat, int>,          // the refcount of every resource ever made
    extent: map<nat, (nat, nat)>,  // start and end of the window the resource was made with
    live: map<nat, Bucket>)        // the buckets not yet destroyed

  const EMPTY: State := State(map[], map[], map[])

  datatype Op =
    | Make(b: nat, bucket: Bucket)
    | Split(b: nat, point: nat, c: nat)
    | Copy(a: nat, c: nat)
    | Destroy(b: nat)

  /** For destroy, TRUE says that the resource itself can be destroyed by the caller. */
  datatype Result = Success | Einval | Enomem | True | False

  datatype Call = Call(op: Op, result: Result)

  /** What one call may do. A call that fails changes nothing. */
  ghost predicate Step(s: State, call: Call, s': State) {
    match call.op
    case Make(b, bucket) =>
      b !in s.live && bucket.data !in s.count &&
      (match call.result
       case Success =>
         s' == State(s.count[bucket.data := 1],
                     s.extent[bucket.data := (bucket.start, bucket.start + bucket.length)],
                     s.live[b := bucket])
       case Enomem => s' == s
       case _ => false)
    case Split(b, point, c) =>
      b in s.live && c !in s.live &&
      var old_b := s.live[b];
      (match call.result
       case Success =>
         && point <= old_b.length && old_b.data in s.count
         && s'.count == s.count[old_b.data := s.count[old_b.data] + 1] && s'.extent == s.extent
         && s'.live == s.live[b := FirstPart(old_b, point)][c := SecondPart(old_b, point)]
       case Einval => point >= old_b.length && s' == s
       case Enomem => s' == s
       case _ => false)
    case Copy(a, c) =>
      a in s.live && c !in s.live &&
      (match call.result
       case Success =>
         && s.live[a].data in s.count
         && s' == s.(count := s.count[s.live[a].data := s.count[s.live[a].data] + 1], live := s.live[c := s.live[a]])
       case Enomem => s' == s
       case _ => false)
    case Destroy(b) =>
      b in s.live && s.live[b].data in s.count &&
      var d := s.live[b].data;
      && s' == s.(count := s.count[d := s.count[d] - 1], live := s.live - {b})
      && call.result == if s.count[d] - 1 == 0 then True else False
  }

  /** The live buckets that refer to a resource. */
  ghost function Refs(live: map<nat, Bucket>, d: nat): set<nat> {
    set b | b in live && live[b].data == d
  }

  /** Refcounts are reference counts, and every live bucket selects from inside its resource. */
  ghost predicate Inv(s: State) {
    && s.count.Keys == s.extent.Keys
    && (forall d | d in s.count :: s.count[d] == |Refs(s.live, d)|)
    && (forall b | b in s.live :: Inside(s, s.live[b]))
  }

  ghost predicate Inside(s: State, b: Bucket) {
    b.data in s.extent && s.extent[b.data].0 <= b.start && b.start + b.length <= s.extent[b.data].1
  }

  lemma RefsAdd(live: map<nat, Bucket>, c: nat, b: Bucket, d: nat)
    requires c !in live
    ensures Refs(live[c := b], d) == Refs(live, d) + if b.data == d then {c} else {}
    ensures |Refs(live[c := b], d)| == |Refs(live, d)| + if b.data == d then 1 else 0
  {
    assert Refs(live[c := b], d) == Refs(live, d) + if b.data == d then {c} else {};
  }

  lemma RefsReplace(live: map<nat, Bucket>, c: nat, b: Bucket, d: nat)
    requires c in live && live[c].data == b.data
    ensures Refs(live[c := b], d) == Refs(live, d)
  {
  }

  lemma RefsRemove(live: map<nat, Bucket>, c: nat, d: nat)
    requires c in live
    ensures Refs(live, d) == Refs(live - {c}, d) + if live[c].data == d then {c} else {}
    ensures |Refs(live, d)| == |Refs(live - {c}, d)| + if live[c].data == d then 1 else 0
  {
    assert Refs(live, d) == Refs(live - {c}, d) + if live[c].data == d then {c} else {};
  }

  lemma RefsSplit(live: map<nat, Bucket>, b: nat, x: Bucket, c: nat, y: Bucket, d: nat)
    requires b in live && c !in live && x.data == y.data == live[b].data
    ensures |Refs(live[b := x][c := y], d)| == |Refs(live, d)| + if y.data == d then 1 else 0
  {
    RefsReplace(live, b, x, d);
    RefsAdd(live[b := x], c, y, d);
  }

  lemma SplitCounts(s: State, call: Call, s': State, d: nat)
    requires Inv(s) && Step(s, call, s') && d in s'.count && call.op.Split?
    ensures s'.count[d] == |Refs(s'.live, d)|
  {
    var Split(b, point, c) := call.op;
    if call.result == Success {
      RefsSplit(s.live, b, FirstPart(s.live[b], point), c, SecondPart(s.live[b], point), d);
    }
  }

  lemma MakeCounts(s: State, call: Call, s': State, d: nat)
    requires Inv(s) && Step(s, call, s') && d in s'.count && call.op.Make?
    ensures s'.count[d] == |Refs(s'.live, d)|
  {
    RefsAdd(s.live, call.op.b, call.op.bucket, d);
    if d !in s.count {
      assert Refs(s.live, d) == {};
    }
  }

  lemma CopyCounts(s: State, call: Call, s': State, d: nat)
    requires Inv(s) && Step(s, call, s') && d in s'.count && call.op.Copy?
    ensures s'.count[d] == |Refs(s'.live, d)|
  {
    RefsAdd(s.live, call.op.c, s.live[call.op.a], d);
  }

  lemma DestroyCounts(s: State, call: Call, s': State, d: nat)
    requires Inv(s) && Step(s, call, s') && d in s'.count && call.op.Destroy?
    ensures s'.count[d] == |Refs(s'.live, d)|
  {
    RefsRemove(s.live, call.op.b, d);
  }

  lemma CountsRefs(s: State, call: Call, s': State, d: nat)
    requires Inv(s) && Step(s, call, s') && d in s'.count
    ensures s'.count[d] == |Refs(s'.live, d)|
  {
    match call.op
    case Make(_, _) => MakeCounts(s, call, s', d);
    case Split(_, _, _) => SplitCounts(s, call, s', d);
    case Copy(_, _) => CopyCounts(s, call, s', d);
    case Destroy(_) => DestroyCounts(s, call, s', d);
  }

  lemma StepKeepsWindows(s: State, call: Call, s': State)
    requires Inv(s) && Step(s, call, s')
    ensures s'.count.Keys == s'.extent.Keys
    ensures forall b | b in s'.live :: Inside(s', s'.live[b])
  {
  }

  lemma StepKeepsInv(s: State, call: Call, s': State)
    requires Inv(s) && Step(s, call, s')
    ensures Inv(s')
  {
    StepKeepsWindows(s, call, s');
    hide Step;
    forall d | d in s'.count ensures s'.count[d] == |Refs(s'.live, d)| {
      CountsRefs(s, call, s', d);
    }
  }

  /** ss[i] is the state before the i-th call. */
  ghost predicate Run(ss: seq<State>, calls: seq<Call>) {
    && |ss| == |calls| + 1
    && forall i :: 0 <= i < |calls| ==> Step(ss[i], calls[i], ss[i + 1])
  }

  /** A run goes on with any call that may be made in the state it has reached. */
  lemma RunOneMore(ss: seq<State>, calls: seq<Call>, call: Call, next: State)
    requires |ss| == |calls| + 1
    ensures Run(ss + [next], calls + [call]) <==> Run(ss, calls) && Step(ss[|calls|], call, next)
    ensures Run([next], [])
  {
    hide Step;
    var ss', calls' := ss + [next], calls + [call];
    assert forall i :: 0 <= i < |ss| ==> ss'[i] == ss[i];
    assert forall i :: 0 <= i < |calls| ==> calls'[i] == calls[i];
    assert ss'[|calls|] == ss[|calls|] && ss'[|calls| + 1] == next && calls'[|calls|] == call;
    if Run(ss', calls') {
      forall i | 0 <= i < |calls| ensures Step(ss[i], calls[i], ss[i + 1]) {
        assert Step(ss'[i], calls'[i], ss'[i + 1]);
      }
    }
  }

  /** Every state of every run satisfies the invariant. */
  lemma {:induction false} RunKeepsInv(ss: seq<State>, calls: seq<Call>, i: nat)
    requires Run(ss, calls) && Inv(ss[0]) && i <= |calls|
    ensures Inv(ss[i])
  {
    if i > 0 {
      RunKeepsInv(ss, calls, i - 1);
      StepKeepsInv(ss[i - 1], calls[i - 1], ss[i]);
    }
  }

  /** No live bucket refers to a resource that may have been destroyed. */
  lemma LiveDataIsCounted(s: State, b: nat)
    requires Inv(s) && b in s.live
    ensures s.live[b].data in s.count && 0 < s.count[s.live[b].data] <= |s.live|
  {
    var d := s.live[b].data;
    assert b in Refs(s.live, d);
    assert Refs(s.live, d) <= s.live.Keys;
    SubsetSize(Refs(s.live, d), s.live.Keys);
  }

  lemma {:induction false} SubsetSize(a: set<nat>, b: set<nat>)
    requires a <= b
    ensures |a| <= |b|
  {
    assert b == a + (b - a);
  }

  /** The call tells its caller that resource d can be destroyed. */
  ghost predicate Releases(s: State, call: Call, d: nat) {
    call.op.Destroy? && call.op.b in s.live && s.live[call.op.b].data == d && call.result == True
  }

  ghost function ReleaseCount(ss: seq<State>, calls: seq<Call>, d: nat, n: nat): nat
    requires Run(ss, calls) && n <= |calls|
  {
    if n == 0 then 0
    else ReleaseCount(ss, calls, d, n - 1) + if Releases(ss[n - 1], calls[n - 1], d) then 1 else 0
  }

  /** d has been made, and no live bucket refers to it any more. */
  ghost predicate Abandoned(s: State, d: nat) {
    d in s.count && Refs(s.live, d) == {}
  }

  lemma AbandonedMeansZero(s: State, d: nat)
    requires Inv(s)
    ensures Abandoned(s, d) <==> d in s.count && s.count[d] == 0
  {
  }

  lemma ZeroIffReleased(s: State, call: Call, s': State, d: nat)
    requires Inv(s) && Step(s, call, s')
    ensures Releases(s, call, d) ==> d in s.count && s.count[d] > 0
    ensures (d in s'.count && s'.count[d] == 0) <==> ((d in s.count && s.count[d] == 0) || Releases(s, call, d))
  {
    hide Refs, Inv;
    match call.op
    case Make(b, bucket) =>
    case Split(b, _, _) => LiveDataIsCounted(s, b);
    case Copy(a, _) => LiveDataIsCounted(s, a);
    case Destroy(b) => LiveDataIsCounted(s, b);
  }

  /** A step abandons a resource exactly if it releases it, and none is ever taken up again. */
  lemma AbandonedIffReleased(s: State, call: Call, s': State, d: nat)
    requires Inv(s) && Step(s, call, s')
    ensures Releases(s, call, d) ==> !Abandoned(s, d)
    ensures Abandoned(s', d) <==> Abandoned(s, d) || Releases(s, call, d)
  {
    StepKeepsInv(s, call, s');
    hide Step, Inv, Releases;
    AbandonedMeansZero(s, d);
    AbandonedMeansZero(s', d);
    ZeroIffReleased(s, call, s', d);
  }

  /** Over any run, a resource is released once if it is abandoned on the way, and else never. */
  lemma {:induction false} ReleasedWhenAbandoned(ss: seq<State>, calls: seq<Call>, d: nat, n: nat)
    requires Run(ss, calls) && Inv(ss[0]) && n <= |calls|
    ensures ReleaseCount(ss, calls, d, n)
         == (if Abandoned(ss[n], d) then 1 else 0) - (if Abandoned(ss[0], d) then 1 else 0)
  {
    if n > 0 {
      hide Step, Inv, Abandoned, Releases;
      ReleasedWhenAbandoned(ss, calls, d, n - 1);
      ReleasesOf(ss, calls, d, n);
    }
  }

  /** The n-th call of a run, and what it releases. */
  lemma ReleasesOf(ss: seq<State>, calls: seq<Call>, d: nat, n: nat)
    requires Run(ss, calls) && Inv(ss[0]) && 0 < n <= |calls|
    ensures Releases(ss[n - 1], calls[n - 1], d) ==> !Abandoned(ss[n - 1], d)
    ensures Abandoned(ss[n], d) <==> Abandoned(ss[n - 1], d) || Releases(ss[n - 1], calls[n - 1], d)
  {
    hide Step, Inv, Abandoned, Releases;
    RunKeepsInv(ss, calls, n - 1);
    assert Step(ss[n - 1], calls[n - 1], ss[n - 1 + 1]);
    AbandonedIffReleased(ss[n - 1], calls[n - 1], ss[n], d);
  }

  /**
   In every run from the start, a resource is released at most once; and it has been released
   exactly if it was made and the last bucket that referred to it is gone.
   */
  lemma ReleasedOnce(ss: seq<State>, calls: seq<Call>, d: nat, n: nat)
    requires Run(ss, calls) && ss[0] == EMPTY && n <= |calls|
    ensures ReleaseCount(ss, calls, d, n) == if Abandoned(ss[n], d) then 1 else 0
  {
    ReleasedWhenAbandoned(ss, calls, d, n);
  }

  /** The calls destroy the buckets ids, in order. */
  ghost predicate Clears(calls: seq<Call>, ids: seq<nat>) {
    && |calls| == |ids|
    && forall i :: 0 <= i < |ids| ==> calls[i].op == Destroy(ids[i])
  }

  lemma {:induction false} ClearingRemoves(ss: seq<State>, calls: seq<Call>, ids: seq<nat>, n: nat)
    requires Run(ss, calls) && Clears(calls, ids) && n <= |calls|
    ensures forall b :: b in ss[n].live <==> b in ss[0].live && b !in ids[..n]
    ensures forall b :: b in ss[n].live ==> ss[n].live[b] == ss[0].live[b]
    ensures ss[n].count.Keys == ss[0].count.Keys
  {
    if n > 0 {
      ClearingRemoves(ss, calls, ids, n - 1);
      assert Step(ss[n - 1], calls[n - 1], ss[n]);
      assert ids[..n] == ids[..n - 1] + [ids[n - 1]];
    }
  }

  /**
   Destroying all buckets of a brigade releases exactly those resources that nothing outside
   the brigade refers to, each of them once.
   */
  lemma ClearingReleases(ss: seq<State>, calls: seq<Call>, ids: seq<nat>, d: nat)
    requires Run(ss, calls) && Clears(calls, ids) && Inv(ss[0])
    requires d in ss[0].count && !Abandoned(ss[0], d)
    ensures ReleaseCount(ss, calls, d, |calls|)
         == if forall b :: b in Refs(ss[0].live, d) ==> b in ids then 1 else 0
  {
    ReleasedWhenAbandoned(ss, calls, d, |calls|);
    ClearingRemoves(ss, calls, ids, |calls|);
    assert ids[..|calls|] == ids;
    var last := ss[|calls|].live;
    assert forall b :: b in Refs(last, d) <==> b in Refs(ss[0].live, d) && b !in ids;
    if Refs(last, d) != {} {
      var b :| b in Refs(last, d);
    }
  }

  /** Once all buckets are destroyed, every resource ever made has been released, once. */
  lemma NothingLeaks(ss: seq<State>, calls: seq<Call>, d: nat)
    requires Run(ss, calls) && ss[0] == EMPTY && ss[|calls|].live == map[]
    ensures d in ss[|calls|].count ==> ReleaseCount(ss, calls, d, |calls|) == 1
  {
    ReleasedOnce(ss, calls, d, |calls|);
  }

  /** A split duplicates the bucket, not the data: the two windows tile the old one. */
  lemma SplitTilesWindow(mem: Memory, s: State, b: nat, point: nat, c: nat, s': State)
    requires Inv(s) && Step(s, Call(Split(b, point, c), Success), s')
    requires InMemory(mem, s.live[b]) && !s.live[b].btype.isMetadata
    ensures b in s'.live && c in s'.live && b != c && s'.live[b].data == s'.live[c].data == s.live[b].data
    ensures s'.live[b].btype == s'.live[c].btype == s.live[b].btype
    ensures InMemory(mem, s'.live[b]) && InMemory(mem, s'.live[c])
    ensures Content(mem, s'.live[b]) == Content(mem, s.live[b])[..point]
    ensures Content(mem, s'.live[c]) == Content(mem, s.live[b])[point..]
  {
    SplitKeepsContent(mem, s.live[b], point);
  }

  // ---------- the answers of a single call ----------

  /** A made bucket is of the given type and says the given window of its data. */
  lemma MakeMeans(mem: Memory, s: State, b: nat, bucket: Bucket, s': State)
    requires Step(s, Call(Make(b, bucket), Success), s') && !bucket.btype.isMetadata
    requires bucket.data in mem && bucket.start + bucket.length <= |mem[bucket.data]|
    ensures b in s'.live && s'.live[b].btype == bucket.btype && s'.live[b].data == bucket.data
    ensures InMemory(mem, s'.live[b])
    ensures Content(mem, s'.live[b]) == mem[bucket.data][bucket.start..bucket.start + bucket.length]
    ensures bucket.data in s'.count && s'.count[bucket.data] == 1
  {
  }

  /** A copy is of the same type, refers to the same data, and says the same. */
  lemma CopyMeans(mem: Memory, s: State, a: nat, c: nat, s': State)
    requires Step(s, Call(Copy(a, c), Success), s') && InMemory(mem, s.live[a])
    ensures a in s'.live && c in s'.live && a != c
    ensures s'.live[a] == s.live[a]
    ensures s'.live[c].btype == s.live[a].btype && s'.live[c].data == s.live[a].data
    ensures InMemory(mem, s'.live[c]) && Content(mem, s'.live[c]) == Content(mem, s.live[a])
    ensures s'.live[c].start == s.live[a].start
  {
  }

  /** A call may have this result. */
  ghost predicate Possible(s: State, op: Op, result: Result) {
    exists s' :: Step(s, Call(op, result), s')
  }

  lemma MakeAnswers(s: State, b: nat, bucket: Bucket, result: Result)
    requires b !in s.live && bucket.data !in s.count
    ensures Possible(s, Make(b, bucket), result) <==> result == Success || result == Enomem
  {
    assert Step(s, Call(Make(b, bucket), Enomem), s);
    var made := State(s.count[bucket.data := 1],
                      s.extent[bucket.data := (bucket.start, bucket.start + bucket.length)],
                      s.live[b := bucket]);
    assert Step(s, Call(Make(b, bucket), Success), made);
  }

  /** A split can succeed at every point up to the end, and is refused only at the end or beyond. */
  lemma SplitAnswers(s: State, b: nat, point: nat, c: nat, result: Result)
    requires Inv(s) && b in s.live && c !in s.live
    ensures Possible(s, Split(b, point, c), result)
       <==> || (result == Success && point <= s.live[b].length)
            || (result == Einval && point >= s.live[b].length)
            || result == Enomem
  {
    var op, old_b := Split(b, point, c), s.live[b];
    LiveDataIsCounted(s, b);
    assert Step(s, Call(op, Enomem), s);
    assert point >= old_b.length ==> Step(s, Call(op, Einval), s);
    if point <= old_b.length {
      var split := State(s.count[old_b.data := s.count[old_b.data] + 1], s.extent,
                         s.live[b := FirstPart(old_b, point)][c := SecondPart(old_b, point)]);
      assert Step(s, Call(op, Success), split);
    }
  }

  lemma CopyAnswers(s: State, a: nat, c: nat, result: Result)
    requires Inv(s) && a in s.live && c !in s.live
    ensures Possible(s, Copy(a, c), result) <==> result == Success || result == Enomem
  {
    var d := s.live[a].data;
    LiveDataIsCounted(s, a);
    assert Step(s, Call(Copy(a, c), Enomem), s);
    var copied := s.(count := s.count[d := s.count[d] + 1], live := s.live[c := s.live[a]]);
    assert Step(s, Call(Copy(a, c), Success), copied);
  }

  /** Destroying a live bucket answers TRUE exactly if no other live bucket refers to its data. */
  lemma DestroyAnswers(s: State, b: nat, result: Result)
    requires Inv(s) && b in s.live
    ensures Possible(s, Destroy(b), result)
       <==> result == if Refs(s.live, s.live[b].data) == {b} then True else False
  {
    var d := s.live[b].data;
    LiveDataIsCounted(s, b);
    RefsRemove(s.live, b, d);
    assert Refs(s.live - {b}, d) == Refs(s.live, d) - {b};
    var last := if s.count[d] - 1 == 0 then True else False;
    assert Step(s, Call(Destroy(b), last), s.(count := s.count[d := s.count[d] - 1], live := s.live - {b}));
  }

  /** The result of a call settles the state, and a call that fails leaves it as it was. */
  lemma StepIsSettled(s: State, call: Call, s1: State, s2: State)
    requires Step(s, call, s1) && Step(s, call, s2)
    ensures s1 == s2
    ensures call.result == Einval || call.result == Enomem ==> s1 == s
  {
  }

  ghost function Touches(op: Op): set<nat> {
    match op
    case Make(b, _) => {b}
    case Split(b, _, c) => {b, c}
    case Copy(_, c) => {c}
    case Destroy(b) => {b}
  }

  /** The other buckets stay as they are, live or not. */
  lemma OthersStay(s: State, call: Call, s': State, x: nat)
    requires Step(s, call, s') && x !in Touches(call.op)
    ensures x in s'.live <==> x in s.live
    ensures x in s.live ==> s'.live[x] == s.live[x]
  {
  }

  // ---------- what was made, and what may be read of it ----------

  ghost predicate Makes(call: Call, d: nat) {
    call.op.Make? && call.op.bucket.data == d && call.result == Success
  }

  lemma MakesStep(s: State, call: Call, s': State, d: nat)
    requires Step(s, call, s')
    ensures d in s'.count <==> d in s.count || Makes(call, d)
    ensures Makes(call, d) ==> d !in s.count
    ensures d in s.extent ==> d in s'.extent && (d in s.count ==> s'.extent[d] == s.extent[d])
  {
  }

  ghost predicate MadeBefore(calls: seq<Call>, d: nat, n: nat)
    requires n <= |calls|
  {
    exists i :: 0 <= i < n && Makes(calls[i], d)
  }

  /** In a run from the start, the resources are those that some call made. */
  lemma {:induction false} ResourcesAreMade(ss: seq<State>, calls: seq<Call>, d: nat, n: nat)
    requires Run(ss, calls) && ss[0] == EMPTY && n <= |calls|
    ensures d in ss[n].count <==> MadeBefore(calls, d, n)
  {
    if n > 0 {
      ResourcesAreMade(ss, calls, d, n - 1);
      assert Step(ss[n - 1], calls[n - 1], ss[n - 1 + 1]);
      MakesStep(ss[n - 1], calls[n - 1], ss[n], d);
      assert MadeBefore(calls, d, n) <==> MadeBefore(calls, d, n - 1) || Makes(calls[n - 1], d);
    }
  }

  lemma {:induction false} ExtentStays(ss: seq<State>, calls: seq<Call>, d: nat, i: nat, n: nat)
    requires Run(ss, calls) && i <= n <= |calls| && d in ss[i].count && d in ss[i].extent
    ensures d in ss[n].count && d in ss[n].extent && ss[n].extent[d] == ss[i].extent[d]
  {
    if n > i {
      ExtentStays(ss, calls, d, i, n - 1);
      assert Step(ss[n - 1], calls[n - 1], ss[n - 1 + 1]);
      MakesStep(ss[n - 1], calls[n - 1], ss[n], d);
    }
  }

  /** No bucket ever selects from outside the window that its resource was made with. */
  lemma WindowsStayInsideMade(ss: seq<State>, calls: seq<Call>, i: nat, n: nat, b: nat)
    requires Run(ss, calls) && Inv(ss[0]) && i < n <= |calls| && b in ss[n].live
    requires Makes(calls[i], ss[n].live[b].data)
    ensures var made := calls[i].op.bucket;
            && made.start <= ss[n].live[b].start
            && ss[n].live[b].start + ss[n].live[b].length <= made.start + made.length
  {
    assert Step(ss[i], calls[i], ss[i + 1]);
    var d := ss[n].live[b].data;
    ExtentStays(ss, calls, d, i + 1, n);
    RunKeepsInv(ss, calls, n);
  }
}
