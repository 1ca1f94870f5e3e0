/**
  Quality-of-service requirements of one class: a list of named requests, the target
  value aggregated from them, and the notifier chain called when the target changes.
 */
module PmQos {

  type s32 = n: int | -0x8000_0000 <= n < 0x8000_0000

  const PM_QOS_DEFAULT_VALUE: s32 := -1
  const ENOMEM := 12

  datatype Comparator = Min | Max {
    function Compare(a: s32, b: s32): s32 {
      match this
      case Min => if a < b then a else b
      case Max => if a > b then a else b
    }
  }

  datatype Requirement = Requirement(name: string, value: s32)

  /** What never changes in a requirement class. */
  datatype Class = Class(defaultValue: s32, comparator: Comparator) {
    /** The value a request for v stands for. */
    function Requested(v: s32): s32 {
      if v == PM_QOS_DEFAULT_VALUE then defaultValue else v
    }

    /** The aggregate of a list, computed from its head. */
    function Fold(list: seq<Requirement>): s32 {
      if list == [] then defaultValue
      else comparator.Compare(Fold(list[..|list| - 1]), list[|list| - 1].value)
    }
  }

  const CPU_DMA_LATENCY := Class(2000 * 1000000, Min)

  predicate Named(list: seq<Requirement>, name: string) {
    exists i :: 0 <= i < |list| && list[i].name == name
  }

  /** The list with the first requirement of that name changed. */
  function ChangeFirst(list: seq<Requirement>, name: string, value: s32): seq<Requirement> {
    if list == [] then []
    else if list[0].name == name then [Requirement(name, value)] + list[1..]
    else [list[0]] + ChangeFirst(list[1..], name, value)
  }

  /** The list without the first requirement of that name. */
  function RemoveFirst(list: seq<Requirement>, name: string): seq<Requirement> {
    if list == [] then []
    else if list[0].name == name then list[1..]
    else [list[0]] + RemoveFirst(list[1..], name)
  }

  lemma {:induction false} FirstAt(list: seq<Requirement>, name: string, i: nat, value: s32)
    requires i < |list| && list[i].name == name && forall j :: 0 <= j < i ==> list[j].name != name
    ensures ChangeFirst(list, name, value) == list[i := Requirement(name, value)]
    ensures RemoveFirst(list, name) == list[..i] + list[i + 1..]
  {
    if i == 0 {
    } else {
      FirstAt(list[1..], name, i - 1, value);
      assert list[i := Requirement(name, value)] == [list[0]] + list[1..][i - 1 := Requirement(name, value)];
      assert list[..i] + list[i + 1..] == [list[0]] + (list[1..][..i - 1] + list[1..][i..]);
    }
  }

  // ---- the operations

  datatype State = State(list: seq<Requirement>, target: s32, log: seq<s32>)

  /** The state after update_target. */
  function Recomputed(c: Class, s: State): State {
    var extreme := c.Fold(s.list);
    if s.target == extreme then s else State(s.list, extreme, s.log + [extreme])
  }

  function Added(c: Class, s: State, name: string, value: s32): State {
    Recomputed(c, s.(list := [Requirement(name, c.Requested(value))] + s.list))
  }

  function Updated(c: Class, s: State, name: string, value: s32): State {
    if Named(s.list, name) then Recomputed(c, s.(list := ChangeFirst(s.list, name, c.Requested(value)))) else s
  }

  function Removed(c: Class, s: State, name: string): State {
    if Named(s.list, name) then Recomputed(c, s.(list := RemoveFirst(s.list, name))) else s
  }

  class PmQosObject {
    const info: Class
    var requirements: seq<Requirement>
    var targetValue: s32
    var log: seq<s32> // the values passed to the notifier chain

    function Now(): State
      reads this
    {
      State(requirements, targetValue, log)
    }

    constructor (info: Class)
      ensures this.info == info && Now() == State([], info.defaultValue, [])
    {
      this.info := info;
      requirements, targetValue, log := [], info.defaultValue, [];
    }

    method UpdateTarget()
      modifies this
      ensures Now() == Recomputed(info, old(Now()))
    {
      var extremeValue := info.defaultValue;
      var i := 0;
      while i < |requirements|
        invariant i <= |requirements| && extremeValue == info.Fold(requirements[..i])
        invariant Now() == old(Now())
      {
        assert requirements[..i + 1][..i] == requirements[..i];
        extremeValue := info.comparator.Compare(extremeValue, requirements[i].value);
        i := i + 1;
      }
      assert requirements[..i] == requirements;
      var callNotifier := false;
      if targetValue != extremeValue {
        callNotifier := true;
        targetValue := extremeValue;
      }
      if callNotifier {
        log := log + [extremeValue];
      }
    }

    /** `dep` and `dup` tell whether the allocations of the entry and of its name succeed. */
    method AddRequirement(name: string, value: s32, dep: bool, dup: bool) returns (err: int)
      modifies this
      ensures err == if dep && dup then 0 else -12
      ensures Now() == if err == 0 then Added(info, old(Now()), name, value) else old(Now())
    {
      if dep {
        var v := if value == PM_QOS_DEFAULT_VALUE then info.defaultValue else value;
        if dup {
          requirements := [Requirement(name, v)] + requirements;
          UpdateTarget();
          return 0;
        }
      }
      return -ENOMEM;
    }

    method UpdateRequirement(name: string, newValue: s32)
      modifies this
      ensures Now() == Updated(info, old(Now()), name, newValue)
    {
      var pendingUpdate, i := false, 0;
      while i < |requirements|
        invariant i <= |requirements| && !pendingUpdate && Now() == old(Now())
        invariant forall j :: 0 <= j < i ==> requirements[j].name != name
      {
        if requirements[i].name == name {
          var v := if newValue == PM_QOS_DEFAULT_VALUE then info.defaultValue else newValue;
          FirstAt(requirements, name, i, v);
          requirements := requirements[i := Requirement(name, v)];
          pendingUpdate := true;
          break;
        }
        i := i + 1;
      }
      if pendingUpdate {
        UpdateTarget();
      }
    }

    method RemoveRequirement(name: string)
      modifies this
      ensures Now() == Removed(info, old(Now()), name)
    {
      var pendingUpdate, i := false, 0;
      while i < |requirements|
        invariant i <= |requirements| && !pendingUpdate && Now() == old(Now())
        invariant forall j :: 0 <= j < i ==> requirements[j].name != name
      {
        if requirements[i].name == name {
          FirstAt(requirements, name, i, 0);
          requirements := requirements[..i] + requirements[i + 1..];
          pendingUpdate := true;
          break;
        }
        i := i + 1;
      }
      if pendingUpdate {
        UpdateTarget();
      }
    }
  }

  // ---- sequential histories

  /** v is the least (for Min) or greatest (for Max) of the default and all listed values. */
  predicate IsExtreme(c: Class, list: seq<Requirement>, v: s32) {
    && (v == c.defaultValue || exists i :: 0 <= i < |list| && list[i].value == v)
    && (c.comparator.Min? ==> v <= c.defaultValue && forall i :: 0 <= i < |list| ==> v <= list[i].value)
    && (c.comparator.Max? ==> c.defaultValue <= v && forall i :: 0 <= i < |list| ==> list[i].value <= v)
  }

  lemma {:induction false} FoldExtreme(c: Class, list: seq<Requirement>)
    ensures IsExtreme(c, list, c.Fold(list))
  {
    if list == [] {
    } else {
      var last := |list| - 1;
      var before := list[..last];
      FoldExtreme(c, before);
      assert forall i :: 0 <= i < last ==> list[i] == before[i];
      var v := c.Fold(before);
      if v != c.defaultValue {
        var i :| 0 <= i < last && before[i].value == v;
        assert list[i].value == v;
      }
    }
  }

  /** There is only one such value, so the aggregate does not depend on the order of the list. */
  lemma {:induction false} ExtremeUnique(c: Class, list: seq<Requirement>, v: s32)
    requires IsExtreme(c, list, v)
    ensures v == c.Fold(list)
  {
    FoldExtreme(c, list);
  }

  lemma {:induction false} FoldCons(c: Class, r: Requirement, list: seq<Requirement>)
    ensures c.Fold([r] + list) == c.comparator.Compare(c.Fold(list), r.value)
  {
    var v := c.comparator.Compare(c.Fold(list), r.value);
    FoldExtreme(c, list);
    var all := [r] + list;
    assert forall i :: 0 <= i < |list| ==> all[i + 1] == list[i];
    assert all[0].value == r.value;
    ExtremeUnique(c, all, v);
  }

  datatype Op = Add(name: string, value: s32) | Update(name: string, value: s32) | Remove(name: string)

  function Do(c: Class, s: State, op: Op): State {
    match op
    case Add(name, value) => Added(c, s, name, value)
    case Update(name, value) => Updated(c, s, name, value)
    case Remove(name) => Removed(c, s, name)
  }

  function DoAll(c: Class, ops: seq<Op>): State {
    if ops == [] then State([], c.defaultValue, [])
    else Do(c, DoAll(c, ops[..|ops| - 1]), ops[|ops| - 1])
  }

  predicate NoRepeats(log: seq<s32>) {
    forall i :: 0 <= i < |log| - 1 ==> log[i] != log[i + 1]
  }

  function LastOr(log: seq<s32>, v: s32): s32 {
    if log == [] then v else log[|log| - 1]
  }

  predicate Consistent(c: Class, s: State) {
    && s.target == c.Fold(s.list)
    && NoRepeats(s.log)
    && LastOr(s.log, c.defaultValue) == s.target
  }

  /** After any history the target is the extreme of what is listed, and the notifiers were told every change, once. */
  lemma {:induction false} HistoryConsistent(c: Class, ops: seq<Op>)
    ensures Consistent(c, DoAll(c, ops))
    ensures IsExtreme(c, DoAll(c, ops).list, DoAll(c, ops).target)
  {
    hide Consistent, Do, IsExtreme, Class.Fold;
    if ops == [] {
      StartConsistent(c);
    } else {
      HistoryConsistent(c, ops[..|ops| - 1]);
      DoConsistent(c, DoAll(c, ops[..|ops| - 1]), ops[|ops| - 1]);
    }
    ConsistentExtreme(c, DoAll(c, ops));
  }

  lemma StartConsistent(c: Class)
    ensures Consistent(c, State([], c.defaultValue, []))
  {
  }

  /** Every operation keeps the target exact and the log without repeats. */
  lemma DoConsistent(c: Class, s: State, op: Op)
    requires Consistent(c, s)
    ensures Consistent(c, Do(c, s, op))
  {
    hide Class.Fold, ChangeFirst, RemoveFirst;
  }

  lemma ConsistentExtreme(c: Class, s: State)
    requires Consistent(c, s)
    ensures IsExtreme(c, s.list, s.target)
  {
    FoldExtreme(c, s.list);
  }

  /** Adding a request moves the target to the lesser (for Max, the greater) of the target and its value. */
  lemma {:induction false} AddMovesTarget(c: Class, s: State, name: string, value: s32)
    requires s.target == c.Fold(s.list) && value != -1
    ensures var v := Added(c, s, name, value).target;
      && v in {s.target, value}
      && (c.comparator.Min? ==> v <= s.target && v <= value)
      && (c.comparator.Max? ==> s.target <= v && value <= v)
  {
    FoldCons(c, Requirement(name, value), s.list);
  }

  /** A request for the value -1 asks for nothing: adding it does not move the target. */
  lemma {:induction false} DefaultAsksNothing(c: Class, s: State, name: string)
    requires s.target == c.Fold(s.list)
    ensures Added(c, s, name, -1).target == s.target
  {
    FoldExtreme(c, s.list);
    FoldCons(c, Requirement(name, c.defaultValue), s.list);
  }

  /** Updating a request is removing it and adding it anew, as far as the target goes. */
  lemma {:induction false} UpdateIsRemoveAdd(c: Class, s: State, name: string, value: s32)
    requires Named(s.list, name)
    ensures Updated(c, s, name, value).target == Added(c, Removed(c, s, name), name, value).target
  {
    hide Class.Fold, IsExtreme, ChangeFirst, RemoveFirst;
    var i := FirstNamed(s.list, name, 0);
    var r := Requirement(name, c.Requested(value));
    FirstAt(s.list, name, i, r.value);
    var removed, changed := s.list[..i] + s.list[i + 1..], s.list[i := r];
    assert removed[..i] + [r] + removed[i..] == changed;
    FoldExtreme(c, changed);
    Reordered(c, removed, r, i, c.Fold(changed));
    ExtremeUnique(c, [r] + removed, c.Fold(changed));
  }

  lemma {:induction false} FirstNamed(list: seq<Requirement>, name: string, start: nat) returns (i: nat)
    requires start <= |list| && Named(list, name) && forall j :: 0 <= j < start ==> list[j].name != name
    ensures i < |list| && list[i].name == name && forall j :: 0 <= j < i ==> list[j].name != name
    decreases |list| - start
  {
    if list[start].name == name {
      i := start;
    } else {
      i := FirstNamed(list, name, start + 1);
    }
  }

  /** Where a request is listed does not matter. */
  lemma Reordered(c: Class, list: seq<Requirement>, r: Requirement, i: nat, v: s32)
    requires i <= |list| && IsExtreme(c, list[..i] + [r] + list[i..], v)
    ensures IsExtreme(c, [r] + list, v)
  {
    var before, after := list[..i] + [r] + list[i..], [r] + list;
    assert before[i] == r == after[0];
    assert forall j :: 0 <= j < |list| ==> after[j + 1] == list[j] == before[if j < i then j else j + 1];
  }

  /** Removing what was just added restores list and target, even when the name was in use. */
  lemma {:induction false} AddThenRemove(c: Class, s: State, name: string, value: s32)
    requires s.target == c.Fold(s.list)
    ensures var r := Removed(c, Added(c, s, name, value), name); r.list == s.list && r.target == s.target
  {
    assert Added(c, s, name, value).list[0].name == name;
  }
}
