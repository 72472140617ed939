/** Savepoints on a server that cannot release them: releasing is left out. */
module Savepoints {
  import opened Wrappers
  import opened Strings

  type Name = string
  type Write = int

  datatype Savepoint = Savepoint(name: Name, snapshot: seq<Write>)

  /** The data written inside the transaction so far, and the savepoints, oldest first. */
  datatype Server = Server(data: seq<Write>, stack: seq<Savepoint>)

  datatype Operation = Write(w: Write) | Save(name: Name) | Release(name: Name) | RollbackTo(name: Name)

  /** The position of the youngest savepoint of this name. */
  function Find(stack: seq<Savepoint>, name: Name): Option<nat>
    decreases |stack|
  {
    if stack == [] then None
    else if stack[|stack| - 1].name == name then Some(|stack| - 1)
    else Find(stack[..|stack| - 1], name)
  }

  lemma {:induction false} FindSound(stack: seq<Savepoint>, name: Name)
    ensures Find(stack, name).Some? ==>
              Find(stack, name).value < |stack| && stack[Find(stack, name).value].name == name
    ensures Find(stack, name).None? ==> forall i :: 0 <= i < |stack| ==> stack[i].name != name
    decreases |stack|
  {
    if stack != [] {
      FindSound(stack[..|stack| - 1], name);
    }
  }

  /** Rolling back keeps the savepoint itself, releasing takes it and all younger ones away; None is an error. */
  function Step(s: Server, op: Operation, canRelease: bool): Option<Server> {
    match op
    case Write(w) => Some(s.(data := s.data + [w]))
    case Save(name) => Some(s.(stack := s.stack + [Savepoint(name, s.data)]))
    case Release(name) =>
      if !canRelease then Some(s)
      else (
        FindSound(s.stack, name);
        match Find(s.stack, name)
        case Some(i) => Some(s.(stack := s.stack[..i]))
        case None => None)
    case RollbackTo(name) => (
      FindSound(s.stack, name);
      match Find(s.stack, name)
      case Some(i) => Some(Server(s.stack[i].snapshot, s.stack[..i + 1]))
      case None => None)
  }

  function Run(s: Server, ops: seq<Operation>, canRelease: bool): Option<Server>
    decreases |ops|
  {
    if ops == [] then Some(s)
    else match Step(s, ops[0], canRelease)
      case Some(s1) => Run(s1, ops[1..], canRelease)
      case None => None
  }

  /** No savepoint name is used twice, nor one that was used before. */
  predicate FreshNames(ops: seq<Operation>, used: set<Name>)
    decreases |ops|
  {
    ops == [] ||
    if ops[0].Save? then ops[0].name !in used && FreshNames(ops[1..], used + {ops[0].name})
    else FreshNames(ops[1..], used)
  }

  /** That is: no two savepoints of the program have one name, and none has a name that was used before. */
  lemma {:induction false} FreshNamesExactlyWhen(ops: seq<Operation>, used: set<Name>)
    ensures FreshNames(ops, used) <==>
              && (forall i :: 0 <= i < |ops| && ops[i].Save? ==> ops[i].name !in used)
              && (forall i, j :: 0 <= i < j < |ops| && ops[i].Save? && ops[j].Save? ==> ops[i].name != ops[j].name)
    decreases |ops|
  {
    if ops != [] {
      var op, rest := ops[0], ops[1..];
      var used' := if op.Save? then used + {op.name} else used;
      FreshNamesExactlyWhen(rest, used');
      if FreshNames(ops, used) {
        forall i | 0 <= i < |ops| && ops[i].Save?
          ensures ops[i].name !in used
          ensures i > 0 && op.Save? ==> ops[i].name != op.name
        {
          if i > 0 { assert ops[i] == rest[i - 1]; }
        }
        forall i, j | 0 <= i < j < |ops| && ops[i].Save? && ops[j].Save?
          ensures ops[i].name != ops[j].name
        {
          assert ops[j] == rest[j - 1];
          if i > 0 { assert ops[i] == rest[i - 1]; }
        }
      } else {
        if k :| 0 <= k < |rest| && rest[k].Save? && rest[k].name in used' {
          assert ops[k + 1] == rest[k];
        } else if i, j :| 0 <= i < j < |rest| && rest[i].Save? && rest[j].Save? && rest[i].name == rest[j].name {
          assert ops[i + 1] == rest[i] && ops[j + 1] == rest[j];
        }
      }
    }
  }

  // ---------- The two servers side by side ----------

  /** A savepoint of the server that cannot release, and whether the other one still has it. */
  datatype Tagged = Tagged(point: Savepoint, live: bool)

  /** Both servers as long as their data are the same. */
  datatype Pair = Pair(data: seq<Write>, tags: seq<Tagged>) {
    function Releasing(): Server { Server(data, Live(tags)) }
    function Keeping(): Server { Server(data, Points(tags)) }
  }

  function Points(tags: seq<Tagged>): (r: seq<Savepoint>)
    ensures |r| == |tags|
  {
    seq(|tags|, i requires 0 <= i < |tags| => tags[i].point)
  }

  function Live(tags: seq<Tagged>): (r: seq<Savepoint>)
    ensures |r| <= |tags|
    decreases |tags|
  {
    if tags == [] then []
    else Live(tags[..|tags| - 1]) + (if tags[|tags| - 1].live then [tags[|tags| - 1].point] else [])
  }

  /** The youngest savepoint of this name, among those that are live or among all. */
  function FindTag(tags: seq<Tagged>, name: Name, liveOnly: bool): (r: Option<nat>)
    ensures r.Some? ==> r.value < |tags| && tags[r.value].point.name == name && (liveOnly ==> tags[r.value].live)
    ensures r.None? ==> forall i :: 0 <= i < |tags| && (liveOnly ==> tags[i].live) ==> tags[i].point.name != name
    ensures r.Some? ==> forall i :: r.value < i < |tags| && (liveOnly ==> tags[i].live) ==> tags[i].point.name != name
    decreases |tags|
  {
    if tags == [] then None
    else
      var last := tags[|tags| - 1];
      if last.point.name == name && (liveOnly ==> last.live) then Some(|tags| - 1)
      else FindTag(tags[..|tags| - 1], name, liveOnly)
  }

  /** The savepoints from this one on are live no more. */
  function Kill(tags: seq<Tagged>, from: nat): (r: seq<Tagged>)
    requires from <= |tags|
    ensures |r| == |tags|
  {
    seq(|tags|, i requires 0 <= i < |tags| => if i < from then tags[i] else tags[i].(live := false))
  }

  /** A step of both; None where the releasing server refuses it or a rollback finds different data on the two. */
  function PairStep(p: Pair, op: Operation): Option<Pair> {
    match op
    case Write(w) => Some(p.(data := p.data + [w]))
    case Save(name) => Some(p.(tags := p.tags + [Tagged(Savepoint(name, p.data), true)]))
    case Release(name) =>
      (match FindTag(p.tags, name, true)
       case Some(i) => Some(p.(tags := Kill(p.tags, i)))
       case None => None)
    case RollbackTo(name) =>
      match (FindTag(p.tags, name, true), FindTag(p.tags, name, false))
      case (Some(i), Some(j)) =>
        if i <= j && p.tags[i].point.snapshot == p.tags[j].point.snapshot
        then Some(Pair(p.tags[i].point.snapshot, Kill(p.tags[..j + 1], i + 1))) else None
      case _ => None
  }

  function PairRun(p: Pair, ops: seq<Operation>): Option<Pair>
    decreases |ops|
  {
    if ops == [] then Some(p)
    else match PairStep(p, ops[0])
      case Some(p1) => PairRun(p1, ops[1..])
      case None => None
  }

  lemma {:induction false} FindInPoints(tags: seq<Tagged>, name: Name)
    ensures Find(Points(tags), name) == FindTag(tags, name, false)
    decreases |tags|
  {
    if tags != [] {
      assert Points(tags)[..|tags| - 1] == Points(tags[..|tags| - 1]);
      FindInPoints(tags[..|tags| - 1], name);
    }
  }

  lemma {:induction false} LiveUpTo(tags: seq<Tagged>, i: nat)
    requires i <= |tags|
    ensures Live(tags[..i]) <= Live(tags)
    decreases |tags| - i
  {
    if i == |tags| {
      assert tags[..i] == tags;
    } else {
      LiveUpTo(tags, i + 1);
      assert tags[..i + 1][..i] == tags[..i];
      assert Live(tags[..i]) <= Live(tags[..i + 1]);
    }
  }

  /** The place of a live savepoint among the live ones. */
  lemma LivePlace(tags: seq<Tagged>, i: nat)
    requires i < |tags| && tags[i].live
    ensures
      var n := |Live(tags[..i])|;
      n < |Live(tags)| && Live(tags)[..n] == Live(tags[..i]) && Live(tags)[..n + 1] == Live(tags[..i + 1])
      && Live(tags)[n] == tags[i].point
  {
    LiveUpTo(tags, i);
    LiveUpTo(tags, i + 1);
    assert tags[..i + 1][..i] == tags[..i];
    assert Live(tags[..i + 1]) == Live(tags[..i]) + [tags[i].point];
  }

  lemma LiveSnoc(tags: seq<Tagged>)
    requires tags != []
    ensures
      var last, init := tags[|tags| - 1], tags[..|tags| - 1];
      Live(tags) == if last.live then Live(init) + [last.point] else Live(init)
  {
  }

  lemma FindSnoc(stack: seq<Savepoint>, last: Savepoint, name: Name)
    ensures Find(stack + [last], name) == if last.name == name then Some(|stack|) else Find(stack, name)
  {
    assert (stack + [last])[..|stack|] == stack;
  }

  lemma {:induction false} FindLivePlace(tags: seq<Tagged>, name: Name)
    ensures Find(Live(tags), name)
         == match FindTag(tags, name, true) case Some(i) => Some(|Live(tags[..i])|) case None => None
    decreases |tags|
  {
    if tags != [] {
      var last, init := tags[|tags| - 1], tags[..|tags| - 1];
      FindLivePlace(init, name);
      var found := FindTag(init, name, true);
      assert found.Some? ==> init[..found.value] == tags[..found.value];
      LiveSnoc(tags);
      FindSnoc(Live(init), last.point, name);
      hide Live, Find;
    }
  }

  lemma FindInLive(tags: seq<Tagged>, name: Name)
    ensures
      match FindTag(tags, name, true)
      case Some(i) =>
        && Find(Live(tags), name) == Some(|Live(tags[..i])|)
        && |Live(tags[..i])| < |Live(tags)|
        && Live(tags)[..|Live(tags[..i])|] == Live(tags[..i])
        && Live(tags)[..|Live(tags[..i])| + 1] == Live(tags[..i + 1])
        && Live(tags)[|Live(tags[..i])|] == tags[i].point
      case None => Find(Live(tags), name) == None
  {
    hide Live, Find;
    FindLivePlace(tags, name);
    if FindTag(tags, name, true).Some? {
      LivePlace(tags, FindTag(tags, name, true).value);
    }
  }

  lemma {:induction false} KillLive(tags: seq<Tagged>, from: nat)
    requires from <= |tags|
    ensures Live(Kill(tags, from)) == Live(tags[..from])
    ensures Points(Kill(tags, from)) == Points(tags)
    decreases |tags|
  {
    if from == |tags| {
      assert Kill(tags, from) == tags == tags[..from];
    } else {
      var init := tags[..|tags| - 1];
      assert Kill(tags, from)[..|tags| - 1] == Kill(init, from);
      assert init[..from] == tags[..from];
      KillLive(init, from);
    }
  }

  lemma LiveIsAny(tags: seq<Tagged>, name: Name)
    requires FindTag(tags, name, true).Some?
    ensures FindTag(tags, name, false).Some? && FindTag(tags, name, true).value <= FindTag(tags, name, false).value
  {
  }

  /** As long as the data were the same, a step that the releasing server accepts is accepted by the other one too. */
  lemma PairStepSplits(p: Pair, op: Operation)
    requires Step(p.Releasing(), op, true).Some?
    ensures Step(p.Keeping(), op, false).Some?
    ensures
      match PairStep(p, op)
      case Some(p1) => Step(p.Releasing(), op, true) == Some(p1.Releasing()) && Step(p.Keeping(), op, false) == Some(p1.Keeping())
      case None => Step(p.Releasing(), op, true).value.data != Step(p.Keeping(), op, false).value.data
  {
    match op {
      case Write(w) =>
      case Save(name) => SaveSplits(p, name);
      case Release(name) => ReleaseSplits(p, name);
      case RollbackTo(name) => RollbackSplits(p, name);
    }
  }

  lemma SaveSplits(p: Pair, name: Name)
    ensures PairStep(p, Save(name)).Some?
    ensures
      var p1 := PairStep(p, Save(name)).value;
      Step(p.Releasing(), Save(name), true) == Some(p1.Releasing()) && Step(p.Keeping(), Save(name), false) == Some(p1.Keeping())
  {
    var added := Tagged(Savepoint(name, p.data), true);
    assert (p.tags + [added])[..|p.tags|] == p.tags;
    assert Points(p.tags + [added]) == Points(p.tags) + [added.point];
  }

  lemma ReleaseSplits(p: Pair, name: Name)
    requires Step(p.Releasing(), Release(name), true).Some?
    ensures PairStep(p, Release(name)).Some?
    ensures
      var p1 := PairStep(p, Release(name)).value;
      Step(p.Releasing(), Release(name), true) == Some(p1.Releasing()) && p1.Keeping() == p.Keeping()
  {
    hide Live, Find;
    FindInLive(p.tags, name);
    KillLive(p.tags, FindTag(p.tags, name, true).value);
  }

  lemma RollbackSplits(p: Pair, name: Name)
    requires Step(p.Releasing(), RollbackTo(name), true).Some?
    ensures Step(p.Keeping(), RollbackTo(name), false).Some?
    ensures
      var releasing, keeping := Step(p.Releasing(), RollbackTo(name), true), Step(p.Keeping(), RollbackTo(name), false);
      match PairStep(p, RollbackTo(name))
      case Some(p1) => releasing == Some(p1.Releasing()) && keeping == Some(p1.Keeping())
      case None => releasing.value.data != keeping.value.data
  {
    hide Live, Find, FindTag;
    FindInLive(p.tags, name);
    FindInPoints(p.tags, name);
    LiveIsAny(p.tags, name);
    var i, j := FindTag(p.tags, name, true).value, FindTag(p.tags, name, false).value;
    KillLive(p.tags[..j + 1], i + 1);
    assert p.tags[..j + 1][..i + 1] == p.tags[..i + 1];
    assert Points(p.tags[..j + 1]) == Points(p.tags)[..j + 1];
  }

  /** After every step the data are the same. */
  ghost predicate SameData(releasing: Server, keeping: Server, ops: seq<Operation>) {
    forall k :: 0 <= k <= |ops| ==> SameDataAfter(releasing, keeping, ops[..k])
  }

  ghost predicate SameDataAfter(releasing: Server, keeping: Server, ops: seq<Operation>) {
    && Run(releasing, ops, true).Some? && Run(keeping, ops, false).Some?
    && Run(releasing, ops, true).value.data == Run(keeping, ops, false).value.data
  }

  lemma {:induction false} SameDataFrom(p: Pair, ops: seq<Operation>)
    requires Run(p.Releasing(), ops, true).Some?
    ensures SameData(p.Releasing(), p.Keeping(), ops) <==> PairRun(p, ops).Some?
    decreases |ops|
  {
    if ops == [] {
      assert forall k :: 0 <= k <= |ops| ==> ops[..k] == [];
    } else {
      var op, rest := ops[0], ops[1..];
      PairStepSplits(p, op);
      if PairStep(p, op).Some? {
        var p1 := PairStep(p, op).value;
        SameDataFrom(p1, rest);
        SameDataLater(p, p1, op, rest);
      } else {
        assert ops[..1] == [op];
        RunCons(p.Releasing(), op, [], true);
        RunCons(p.Keeping(), op, [], false);
        assert [op] + [] == [op];
        assert !SameDataAfter(p.Releasing(), p.Keeping(), ops[..1]);
      }
      assert ops == [op] + rest;
    }
  }

  lemma SameDataLater(p: Pair, p1: Pair, op: Operation, rest: seq<Operation>)
    requires Step(p.Releasing(), op, true) == Some(p1.Releasing()) && Step(p.Keeping(), op, false) == Some(p1.Keeping())
    ensures SameData(p.Releasing(), p.Keeping(), [op] + rest) <==> SameData(p1.Releasing(), p1.Keeping(), rest)
  {
    hide Run;
    var ops := [op] + rest;
    forall k | 0 <= k <= |rest|
      ensures SameDataAfter(p.Releasing(), p.Keeping(), ops[..k + 1]) <==> SameDataAfter(p1.Releasing(), p1.Keeping(), rest[..k])
    {
      assert ops[..k + 1] == [op] + rest[..k];
      RunCons(p.Releasing(), op, rest[..k], true);
      RunCons(p.Keeping(), op, rest[..k], false);
    }
    assert ops[..0] == [];
    RunEmpty(p.Releasing(), true);
    RunEmpty(p.Keeping(), false);
    if SameData(p1.Releasing(), p1.Keeping(), rest) {
      forall k | 0 <= k <= |ops|
        ensures SameDataAfter(p.Releasing(), p.Keeping(), ops[..k])
      {
        if k > 0 {
          assert SameDataAfter(p1.Releasing(), p1.Keeping(), rest[..k - 1]);
        }
      }
    }
  }

  /**
   For every program that a releasing server accepts, leaving out the releases gives the same data after every
   step if and only if every rollback finds the same data in the youngest savepoint of its name, whether
   released or not, as in the youngest that was not released.
   */
  lemma SameDataExactlyWhen(data: seq<Write>, ops: seq<Operation>)
    requires Run(Server(data, []), ops, true).Some?
    ensures SameData(Server(data, []), Server(data, []), ops) <==> PairRun(Pair(data, []), ops).Some?
  {
    var p := Pair(data, []);
    assert p.Releasing() == Server(data, []) && p.Keeping() == Server(data, []);
    SameDataFrom(p, ops);
  }

  // ---------- Conditions on the names ----------

  /**
   No rollback targets a name whose youngest savepoint was released. Only names and releases are followed here, no data;
   what a releasing server refuses anyway is not looked at.
   */
  predicate NoRollbackToReleased(tags: seq<Tagged>, ops: seq<Operation>)
    decreases |ops|
  {
    ops == [] ||
    match ops[0]
    case Write(_) => NoRollbackToReleased(tags, ops[1..])
    case Save(name) => NoRollbackToReleased(tags + [Tagged(Savepoint(name, []), true)], ops[1..])
    case Release(name) =>
      (match FindTag(tags, name, true)
       case Some(i) => NoRollbackToReleased(Kill(tags, i), ops[1..])
       case None => true)
    case RollbackTo(name) =>
      match FindTag(tags, name, false)
      case Some(j) => tags[j].live && NoRollbackToReleased(tags[..j + 1], ops[1..])
      case None => true
  }

  /** The same names, released or not alike, whatever the data. */
  ghost predicate SameNames(tags: seq<Tagged>, other: seq<Tagged>) {
    |tags| == |other|
    && forall i :: 0 <= i < |tags| ==> tags[i].point.name == other[i].point.name && tags[i].live == other[i].live
  }

  lemma {:induction false} FindTagByNames(tags: seq<Tagged>, other: seq<Tagged>, name: Name, liveOnly: bool)
    requires SameNames(tags, other)
    ensures FindTag(tags, name, liveOnly) == FindTag(other, name, liveOnly)
    decreases |tags|
  {
    if tags != [] {
      FindTagByNames(tags[..|tags| - 1], other[..|other| - 1], name, liveOnly);
    }
  }

  lemma YoungestIsLive(tags: seq<Tagged>, name: Name)
    requires FindTag(tags, name, false).Some? && tags[FindTag(tags, name, false).value].live
    ensures FindTag(tags, name, true) == FindTag(tags, name, false)
  {
  }

  lemma KillNothing(tags: seq<Tagged>)
    ensures Kill(tags, |tags|) == tags
  {
  }

  /** Then each step finds the same savepoint on both servers. */
  lemma {:induction false} NamesRun(p: Pair, tags: seq<Tagged>, ops: seq<Operation>)
    requires SameNames(p.tags, tags) && NoRollbackToReleased(tags, ops) && Run(p.Releasing(), ops, true).Some?
    ensures PairRun(p, ops).Some?
    decreases |ops|
  {
    hide Step, Live, Points;
    if ops != [] {
      PairStepSplits(p, ops[0]);
      match ops[0] {
        case Write(_) => NamesRun(PairStep(p, ops[0]).value, tags, ops[1..]);
        case Save(name) => NamesRun(PairStep(p, ops[0]).value, tags + [Tagged(Savepoint(name, []), true)], ops[1..]);
        case Release(name) =>
          ReleaseFinds(p, name);
          FindTagByNames(p.tags, tags, name, true);
          NamesRun(PairStep(p, ops[0]).value, Kill(tags, FindTag(tags, name, true).value), ops[1..]);
        case RollbackTo(name) =>
          ReleaseFinds(p, name);
          FindTagByNames(p.tags, tags, name, false);
          LiveIsAny(p.tags, name);
          var j := FindTag(tags, name, false).value;
          YoungestIsLive(p.tags, name);
          KillNothing(p.tags[..j + 1]);
          NamesRun(PairStep(p, ops[0]).value, tags[..j + 1], ops[1..]);
      }
    }
  }

  /** What the releasing server accepts, names a savepoint that is live. */
  lemma ReleaseFinds(p: Pair, name: Name)
    ensures Step(p.Releasing(), Release(name), true).Some? || Step(p.Releasing(), RollbackTo(name), true).Some? ==>
              FindTag(p.tags, name, true).Some?
  {
    hide Live, Find;
    FindInLive(p.tags, name);
  }

  /**
   For every program that a releasing server accepts and that rolls back to no name whose youngest savepoint was
   released, leaving out the releases gives the same data after every step.
   */
  lemma SameDataByNames(data: seq<Write>, ops: seq<Operation>)
    requires NoRollbackToReleased([], ops) && Run(Server(data, []), ops, true).Some?
    ensures SameData(Server(data, []), Server(data, []), ops)
  {
    assert Pair(data, []).Releasing() == Server(data, []);
    NamesRun(Pair(data, []), [], ops);
    SameDataExactlyWhen(data, ops);
  }

  ghost predicate NamesWithin(tags: seq<Tagged>, used: set<Name>) {
    && (forall i :: 0 <= i < |tags| ==> tags[i].point.name in used)
    && (forall i, j :: 0 <= i < j < |tags| ==> tags[i].point.name != tags[j].point.name)
  }

  lemma FirstStepRuns(s: Server, ops: seq<Operation>, canRelease: bool)
    requires ops != [] && Run(s, ops, canRelease).Some?
    ensures Step(s, ops[0], canRelease).Some?
    ensures Run(Step(s, ops[0], canRelease).value, ops[1..], canRelease).Some?
  {
  }

  lemma NamesStay(tags: seq<Tagged>, from: nat, used: set<Name>)
    requires NamesWithin(tags, used) && from <= |tags|
    ensures NamesWithin(Kill(tags, from), used) && NamesWithin(tags[..from], used)
  {
  }

  lemma NamesGrow(tags: seq<Tagged>, used: set<Name>, point: Savepoint)
    requires NamesWithin(tags, used) && point.name !in used
    ensures NamesWithin(tags + [Tagged(point, true)], used + {point.name})
  {
  }

  lemma OnlyOneOfName(tags: seq<Tagged>, used: set<Name>, name: Name)
    requires NamesWithin(tags, used) && FindTag(tags, name, true).Some? && FindTag(tags, name, false).Some?
    ensures FindTag(tags, name, true) == FindTag(tags, name, false)
  {
    var i, j := FindTag(tags, name, true).value, FindTag(tags, name, false).value;
    assert tags[i].point.name == tags[j].point.name;
  }

  /** A program that uses no name twice cannot roll back to a released one: a releasing server would refuse it. */
  lemma {:induction false} FreshNamesAreEnough(p: Pair, ops: seq<Operation>, used: set<Name>)
    requires NamesWithin(p.tags, used) && FreshNames(ops, used) && Run(p.Releasing(), ops, true).Some?
    ensures NoRollbackToReleased(p.tags, ops)
    decreases |ops|
  {
    hide Step, Live, Points, Find, Run, NamesWithin;
    if ops != [] {
      FirstStepRuns(p.Releasing(), ops, true);
      PairStepSplits(p, ops[0]);
      match ops[0] {
        case Write(_) => FreshNamesAreEnough(PairStep(p, ops[0]).value, ops[1..], used);
        case Save(name) =>
          var p1 := PairStep(p, ops[0]).value;
          NamesGrow(p.tags, used, Savepoint(name, p.data));
          FreshNamesAreEnough(p1, ops[1..], used + {name});
          RollbacksByNames(p1.tags, p.tags + [Tagged(Savepoint(name, []), true)], ops[1..]);
        case Release(name) =>
          ReleaseFinds(p, name);
          NamesStay(p.tags, FindTag(p.tags, name, true).value, used);
          FreshNamesAreEnough(PairStep(p, ops[0]).value, ops[1..], used);
        case RollbackTo(name) =>
          ReleaseFinds(p, name);
          LiveIsAny(p.tags, name);
          var j := FindTag(p.tags, name, false).value;
          OnlyOneOfName(p.tags, used, name);
          KillNothing(p.tags[..j + 1]);
          NamesStay(p.tags, j + 1, used);
          FreshNamesAreEnough(PairStep(p, ops[0]).value, ops[1..], used);
      }
    }
  }

  /** The condition depends on the names alone. */
  lemma {:induction false} RollbacksByNames(tags: seq<Tagged>, other: seq<Tagged>, ops: seq<Operation>)
    requires SameNames(tags, other)
    ensures NoRollbackToReleased(tags, ops) <==> NoRollbackToReleased(other, ops)
    decreases |ops|
  {
    if ops != [] {
      match ops[0] {
        case Write(_) => RollbacksByNames(tags, other, ops[1..]);
        case Save(name) =>
          var added := [Tagged(Savepoint(name, []), true)];
          RollbacksByNames(tags + added, other + added, ops[1..]);
        case Release(name) =>
          FindTagByNames(tags, other, name, true);
          if FindTag(tags, name, true).Some? {
            var i := FindTag(tags, name, true).value;
            RollbacksByNames(Kill(tags, i), Kill(other, i), ops[1..]);
          }
        case RollbackTo(name) =>
          FindTagByNames(tags, other, name, false);
          if FindTag(tags, name, false).Some? {
            var j := FindTag(tags, name, false).value;
            RollbacksByNames(tags[..j + 1], other[..j + 1], ops[1..]);
          }
      }
    }
  }

  /** In particular that holds for every program that uses no name twice. */
  lemma ReleasingMakesNoDifference(data: seq<Write>, ops: seq<Operation>)
    requires FreshNames(ops, {}) && Run(Server(data, []), ops, true).Some?
    ensures NoRollbackToReleased([], ops)
    ensures SameData(Server(data, []), Server(data, []), ops)
  {
    assert Pair(data, []).Releasing() == Server(data, []);
    FreshNamesAreEnough(Pair(data, []), ops, {});
    SameDataByNames(data, ops);
  }

  lemma RunCons(s: Server, op: Operation, ops: seq<Operation>, canRelease: bool)
    ensures Run(s, [op] + ops, canRelease)
         == match Step(s, op, canRelease) case Some(s1) => Run(s1, ops, canRelease) case None => None
  {
    assert ([op] + ops)[1..] == ops;
  }

  function ReusedName(name: Name, w: Write): seq<Operation> {
    [Save(name)] + ([Operation.Write(w)] + ([Save(name)] + ([Release(name)] + ([RollbackTo(name)] + []))))
  }

  /** With a name used twice it does: the younger savepoint should be gone, and is not. */
  lemma ReusedNameTellsThemApart(name: Name, w: Write)
    ensures
      var start := Server([], []);
      var ops := ReusedName(name, w);
      && Run(start, ops, true).Some? && Run(start, ops, false).Some?
      && Run(start, ops, true).value.data == []
      && Run(start, ops, false).value.data == [w]
  {
    hide Run;
    var a, b := Savepoint(name, []), Savepoint(name, [w]);
    assert [] + [w] == [w] && [] + [a] == [a] && [a] + [b] == [a, b] && [a, b][..1] == [a];
    var s0, s1, s2, s3 := Server([], []), Server([], [a]), Server([w], [a]), Server([w], [a, b]);
    RunEmpty(Server([], [a]), true);
    RunEmpty(Server([w], [a, b]), false);
    RunCons(s2, RollbackTo(name), [], true);
    RunCons(s3, RollbackTo(name), [], false);
    assert [a][..0] == [] && [a, b][..2] == [a, b] && [a][..1] == [a];
    forall canRelease: bool
      ensures Run(s0, ReusedName(name, w), canRelease) == Run(s3, [Release(name)] + ([RollbackTo(name)] + []), canRelease)
    {
      RunCons(s2, Save(name), [Release(name)] + ([RollbackTo(name)] + []), canRelease);
      RunCons(s1, Operation.Write(w), [Save(name)] + ([Release(name)] + ([RollbackTo(name)] + [])), canRelease);
      RunCons(s0, Save(name), [Operation.Write(w)] + ([Save(name)] + ([Release(name)] + ([RollbackTo(name)] + []))), canRelease);
    }
    RunCons(s3, Release(name), [RollbackTo(name)] + [], true);
    RunCons(s3, Release(name), [RollbackTo(name)] + [], false);
  }

  lemma RunEmpty(s: Server, canRelease: bool)
    ensures Run(s, [], canRelease) == Some(s)
  {
  }

  // ---------- The statements as text ----------

  function SavepointCreateSql(sid: Name): string { "SAVE TRANSACTION " + QuoteName(sid) }

  function SavepointRollbackSql(sid: Name): string { "ROLLBACK TRANSACTION " + QuoteName(sid) }

  /** A name in brackets, and nothing behind it. */
  function ReadBracketed(s: string): Option<Name> {
    if |s| >= 2 && s[0] == '[' && s[|s| - 1] == ']' && ']' !in s[1..|s| - 1] then Some(s[1..|s| - 1]) else None
  }

  /** How T-SQL takes these statements. */
  function ReadSavepoint(text: string): Option<Operation> {
    match After(text, "SAVE TRANSACTION ")
    case Some(rest) =>
      (match ReadBracketed(rest)
       case Some(name) => Some(Save(name))
       case None => None)
    case None =>
      match After(text, "ROLLBACK TRANSACTION ")
      case Some(rest) =>
        (match ReadBracketed(rest)
         case Some(name) => Some(RollbackTo(name))
         case None => None)
      case None => None
  }

  function Executed(s: Server, text: string): Option<Server> {
    match ReadSavepoint(text)
    case Some(op) => Step(s, op, false)
    case None => None
  }

  lemma BracketedReads(name: Name)
    requires ']' !in name
    ensures ReadBracketed(QuoteName(name)) == Some(name)
  {
    if name != "" {
      assert name[|name| - 1] in name;
    }
    var s := "[" + name + "]";
    assert s[1..|s| - 1] == name;
  }

  /** The server reads the statements as what they are meant to be, for the names that Django makes. */
  lemma SavepointTextsRead(sid: Name)
    requires ']' !in sid
    ensures ReadSavepoint(SavepointCreateSql(sid)) == Some(Save(sid))
    ensures ReadSavepoint(SavepointRollbackSql(sid)) == Some(RollbackTo(sid))
  {
    BracketedReads(sid);
    AfterWord("SAVE TRANSACTION ", QuoteName(sid));
    AfterWord("ROLLBACK TRANSACTION ", QuoteName(sid));
    var rollback := SavepointRollbackSql(sid);
    assert rollback[0] == 'R';
    AfterOther(rollback, "SAVE TRANSACTION ", 0);
  }

  // ---------- The database wrapper ----------

  /** An entry of the query log: the statement and how long it took. */
  datatype LogEntry = LogEntry(sql: string, time: string)

  /** Django's connection wrapper: it sends SAVE and ROLLBACK, and only notes a release in the query log. */
  class DatabaseWrapper {
    var server: Server
    var queriesLog: seq<LogEntry>

    constructor (server: Server)
      ensures this.server == server && queriesLog == []
    {
      this.server, queriesLog := server, [];
    }

    /** The savepoint stays: only a log that is in use notes the release, as a comment. */
    method SavepointCommit(sid: Name)
      modifies this`queriesLog
      ensures old(queriesLog) == [] ==> queriesLog == []
      ensures old(queriesLog) != [] ==>
                && |queriesLog| == |old(queriesLog)| + 1 && old(queriesLog) <= queriesLog
                && queriesLog[|queriesLog| - 1].time == "0.000"
                && queriesLog[|queriesLog| - 1].sql
                   == "-- RELEASE SAVEPOINT " + QuoteName(sid) + " -- (because assertNumQueries)"
    {
      if queriesLog != [] {
        var sql := "-- RELEASE SAVEPOINT " + QuoteName(sid) + " -- (because assertNumQueries)";
        queriesLog := queriesLog + [LogEntry(sql, "0.000")];
      }
    }

    /** False when the server refuses the statement. */
    method Perform(op: Operation) returns (ok: bool)
      requires op.Save? || op.RollbackTo? ==> ']' !in op.name
      modifies this
      ensures ok <==> Step(old(server), op, false).Some?
      ensures server == if ok then Step(old(server), op, false).value else old(server)
    {
      if op.Release? {
        SavepointCommit(op.name);
        return true;
      }
      var outcome;
      match op {
        case Save(name) =>
          SavepointTextsRead(name);
          outcome := Executed(server, SavepointCreateSql(name));
        case RollbackTo(name) =>
          SavepointTextsRead(name);
          outcome := Executed(server, SavepointRollbackSql(name));
        case _ =>
          outcome := Step(server, op, false);
      }
      ok := outcome.Some?;
      if ok {
        server := outcome.value;
      }
    }

    /** A whole program runs as on a server that really releases. */
    method PerformAll(ops: seq<Operation>) returns (ok: bool)
      requires server.stack == [] && Run(server, ops, true).Some?
      requires PairRun(Pair(server.data, []), ops).Some?
      requires forall i :: 0 <= i < |ops| && (ops[i].Save? || ops[i].RollbackTo?) ==> ']' !in ops[i].name
      modifies this
      ensures ok && server.data == Run(old(server), ops, true).value.data
    {
      ok := true;
      SameDataExactlyWhen(server.data, ops);
      assert server == Server(server.data, []);
      assert ops[..|ops|] == ops && SameDataAfter(server, server, ops[..|ops|]);
      var i := 0;
      while i < |ops|
        invariant 0 <= i <= |ops| && ok
        invariant Run(server, ops[i..], false) == Run(old(server), ops, false)
        invariant Run(old(server), ops, false).Some?
      {
        assert ops[i..][1..] == ops[i + 1..];
        ok := Perform(ops[i]);
        i := i + 1;
      }
    }
  }
}
