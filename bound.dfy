/** Bound statements and the three statement binders: a prepared statement
    whose bind markers have been given serialized values, and the step-by-step
    builders that produce one by appending, by marker index or by marker name. */
module Bound {
  import opened Wrappers
  import opened Cql
  import opened Prepared

  /** A prepared statement together with the serialized values of all its markers. */
  datatype BoundStatement = BoundStatement(prepared: PreparedStatement, values: SerializedValues)
  {
    function Prepared(): PreparedStatement
    {
      prepared
    }
  }

  /** Partition-key extraction followed by the partitioner's hash; both lie
      outside this model, so callers supply them as one function. */
  type TokenComputation = BoundStatement -> Result<Token, PartitionKeyError>

  /** The token a bound statement would be routed by: none at all for a
      statement that is not token aware, whose key is then never extracted. */
  function CalculateToken(bound: BoundStatement, computeToken: TokenComputation): (r: Result<Option<Token>, PartitionKeyError>)
    ensures !bound.prepared.tokenAware ==> r == Ok(None)
    ensures bound.prepared.tokenAware ==>
      match computeToken(bound)
      case Ok(t) => r == Ok(Some(t))
      case Err(e) => r == Err(e)
  {
    if !bound.prepared.tokenAware then Ok(None)
    else
      match computeToken(bound)
      case Ok(t) => Ok(Some(t))
      case Err(e) => Err(e)
  }

  type Slots = seq<Option<DynValue>>

  /** The slots a by-index or by-name binder starts from: one empty slot per marker. */
  function EmptySlots(n: nat): (s: Slots)
    ensures |s| == n
    ensures forall k :: 0 <= k < n ==> s[k].None?
  {
    seq(n, _ => None)
  }

  /** Hands out binders for one prepared statement. */
  datatype StatementBinder = StatementBinder(prepared: PreparedStatement)
  {
    method AppendingBinder() returns (b: AppendingStatementBinder)
      ensures fresh(b) && b.Valid()
      ensures b.prepared == prepared && b.values == EmptyValues
    {
      b := new AppendingStatementBinder(prepared);
    }

    method ByIndexBinder() returns (b: ByIndexStatementBinder)
      ensures fresh(b) && fresh(b.values) && b.Valid()
      ensures b.prepared == prepared && b.values[..] == EmptySlots(prepared.ColCount())
    {
      b := new ByIndexStatementBinder(prepared);
    }

    method ByNameBinder() returns (b: ByNameStatementBinder)
      ensures fresh(b) && fresh(b.values) && b.Valid()
      ensures b.prepared == prepared && b.values[..] == EmptySlots(prepared.ColCount())
    {
      b := new ByNameStatementBinder(prepared);
    }
  }

  // ---------------------------------------------------------------------
  // Binding by appending

  datatype AppendingStatementBinderError =
    | TooFewValues(required: nat, provided: nat)
    | TooManyValues(required: nat)
    | Serialization(error: SerializationError)

  /** One `bind_next_value` step on the values bound so far. */
  function BindNext(prepared: PreparedStatement, values: SerializedValues, value: DynValue): (r: Result<SerializedValues, AppendingStatementBinderError>)
    ensures r == Err(TooManyValues(prepared.ColCount())) <==> values.ElementCount() >= prepared.ColCount()
    ensures values.ElementCount() < prepared.ColCount() ==>
      match Encode(value, prepared.colSpecs[values.ElementCount()].typ)
      case Ok(bytes) => r == Ok(SerializedValues(values.elements + [bytes]))
      case Err(e) => r == Err(AppendingStatementBinderError.Serialization(e))
  {
    var provided := values.ElementCount();
    if provided >= prepared.ColCount() then Err(TooManyValues(prepared.ColCount()))
    else
      match AddValue(values, value, prepared.colSpecs[provided].typ)
      case Ok(v) => Ok(v)
      case Err(e) => Err(AppendingStatementBinderError.Serialization(e))
  }

  /** Binds values in marker order, serializing each one as it is bound. */
  class AppendingStatementBinder {
    const prepared: PreparedStatement
    var values: SerializedValues

    ghost predicate Valid()
      reads this
    {
      values.ElementCount() <= prepared.ColCount()
    }

    constructor (prepared: PreparedStatement)
      ensures Valid()
      ensures this.prepared == prepared && values == EmptyValues
    {
      this.prepared := prepared;
      values := EmptyValues;
    }

    method BindNextValue(value: DynValue) returns (r: Outcome<AppendingStatementBinderError>)
      requires Valid()
      modifies this
      ensures Valid()
      ensures match BindNext(prepared, old(values), value)
        case Ok(v) => r == Pass && values == v
        case Err(e) => r == Fail(e) && values == old(values)
    {
      var required := prepared.ColCount();
      var provided := values.ElementCount();
      if provided >= required {
        return Fail(TooManyValues(required));
      }
      var spec := prepared.colSpecs[provided];
      match AddValue(values, value, spec.typ) {
        case Ok(v) =>
          values := v;
          r := Pass;
        case Err(e) =>
          r := Fail(AppendingStatementBinderError.Serialization(e));
      }
    }

    function Finish(): (r: Result<BoundStatement, AppendingStatementBinderError>)
      requires Valid()
      reads this
      ensures r == FinishAppending(prepared, values)
    {
      FinishAppending(prepared, values)
    }
  }

  /** The result of `finish` on an appending binder holding `values`: it
      succeeds exactly when every marker has a value, and since no more values
      than markers can be appended, any other count is too few. */
  function FinishAppending(prepared: PreparedStatement, values: SerializedValues): (r: Result<BoundStatement, AppendingStatementBinderError>)
    requires values.ElementCount() <= prepared.ColCount()
    ensures r.Ok? <==> values.ElementCount() == prepared.ColCount()
    ensures r.Ok? ==> r.value == BoundStatement(prepared, values)
    ensures r.Err? ==> r.error == TooFewValues(prepared.ColCount(), values.ElementCount())
    ensures r.Err? ==> r.error.provided < r.error.required
  {
    var required := prepared.ColCount();
    var provided := values.ElementCount();
    if required == provided then Ok(BoundStatement(prepared, values))
    else Err(TooFewValues(required, provided))
  }

  // ---------------------------------------------------------------------
  // Serializing a full set of slots, shared by the by-index and by-name finish

  /** Marker `k` has a value and that value encodes for the marker's type. */
  ghost predicate ColumnReady(specs: seq<ColSpec>, slots: Slots, k: int)
  {
    0 <= k < |slots| && k < |specs| && slots[k].Some? && Encode(slots[k].value, specs[k].typ).Ok?
  }

  /** Every marker from `i` up to (excluding) `k` is ready. */
  ghost predicate ReadyBetween(specs: seq<ColSpec>, slots: Slots, i: int, k: int)
  {
    forall j :: i <= j < k ==> ColumnReady(specs, slots, j)
  }

  /** Where a scan over the slots stopped: an empty slot or a value that did not encode. */
  datatype ScanError = MissingAt(idx: nat) | EncodeFailed(idx: nat, error: SerializationError)

  /** Walks the slots from marker `i` on, appending each value's encoding to
      `acc`; the first empty slot or failed encoding ends the walk. */
  function ScanSlots(specs: seq<ColSpec>, slots: Slots, i: nat, acc: SerializedValues): (r: Result<SerializedValues, ScanError>)
    requires |slots| == |specs| && i <= |slots|
    decreases |slots| - i
    ensures r.Ok? <==> ReadyBetween(specs, slots, i, |slots|)
    ensures r.Ok? ==>
      && |r.value.elements| == |acc.elements| + |slots| - i
      && r.value.elements[..|acc.elements|] == acc.elements
      && forall k :: i <= k < |slots| ==>
           slots[k].Some? && Encode(slots[k].value, specs[k].typ) == Ok(r.value.elements[|acc.elements| + k - i])
    ensures r.Err? && r.error.MissingAt? ==>
      i <= r.error.idx < |slots| && slots[r.error.idx].None? && ReadyBetween(specs, slots, i, r.error.idx)
    ensures r.Err? && r.error.EncodeFailed? ==>
      && i <= r.error.idx < |slots| && slots[r.error.idx].Some?
      && Encode(slots[r.error.idx].value, specs[r.error.idx].typ) == Err(r.error.error)
      && ReadyBetween(specs, slots, i, r.error.idx)
  {
    if i == |slots| then Ok(acc)
    else if slots[i].None? then
      assert !ColumnReady(specs, slots, i);
      Err(MissingAt(i))
    else
      match AddValue(acc, slots[i].value, specs[i].typ)
      case Err(e) =>
        assert !ColumnReady(specs, slots, i);
        Err(EncodeFailed(i, e))
      case Ok(acc') =>
        var r := ScanSlots(specs, slots, i + 1, acc');
        assert r.Ok? ==> r.value.elements[..|acc.elements|] == r.value.elements[..|acc'.elements|][..|acc.elements|];
        r
  }

  // ---------------------------------------------------------------------
  // Binding by index

  datatype ByIndexStatementBinderError =
    | NoSuchIndex(idx: nat)
    | MissingValueAtIndex(idx: nat)
    | DuplicatedValue(idx: nat)
    | Serialization(error: SerializationError)

  /** One `bind_value_by_index` step on the slots. */
  function BindByIndex(slots: Slots, index: nat, value: DynValue): (r: Result<Slots, ByIndexStatementBinderError>)
    ensures r == Err(NoSuchIndex(index)) <==> index >= |slots|
    ensures r == Err(ByIndexStatementBinderError.DuplicatedValue(index)) <==> index < |slots| && slots[index].Some?
    ensures r.Ok? <==> index < |slots| && slots[index].None?
    ensures r.Ok? ==>
      && |r.value| == |slots| && r.value[index] == Some(value)
      && forall k :: 0 <= k < |slots| && k != index ==> r.value[k] == slots[k]
  {
    if index >= |slots| then Err(NoSuchIndex(index))
    else if slots[index].Some? then Err(ByIndexStatementBinderError.DuplicatedValue(index))
    else Ok(slots[index := Some(value)])
  }

  /** The result of `finish` on a by-index binder holding `slots`: the first
      empty slot or failed encoding, in marker order, decides the error. */
  function FinishByIndex(prepared: PreparedStatement, slots: Slots): (r: Result<BoundStatement, ByIndexStatementBinderError>)
    requires |slots| == prepared.ColCount()
    ensures r.Ok? <==> ReadyBetween(prepared.colSpecs, slots, 0, |slots|)
    ensures r.Ok? ==>
      && r.value.prepared == prepared
      && |r.value.values.elements| == |slots|
      && forall k :: 0 <= k < |slots| ==>
           slots[k].Some? && Encode(slots[k].value, prepared.colSpecs[k].typ) == Ok(r.value.values.elements[k])
    ensures r.Err? ==> r.error.MissingValueAtIndex? || r.error.Serialization?
    ensures r.Err? && r.error.MissingValueAtIndex? ==>
      r.error.idx < |slots| && slots[r.error.idx].None? && ReadyBetween(prepared.colSpecs, slots, 0, r.error.idx)
    ensures r.Err? && r.error.Serialization? ==>
      exists k :: 0 <= k < |slots| && slots[k].Some?
        && Encode(slots[k].value, prepared.colSpecs[k].typ) == Err(r.error.error)
        && ReadyBetween(prepared.colSpecs, slots, 0, k)
  {
    match ScanSlots(prepared.colSpecs, slots, 0, EmptyValues)
    case Ok(values) => Ok(BoundStatement(prepared, values))
    case Err(MissingAt(idx)) => Err(MissingValueAtIndex(idx))
    case Err(EncodeFailed(idx, e)) => Err(ByIndexStatementBinderError.Serialization(e))
  }

  /** Binds values to markers by position; serialization waits for `Finish`. */
  class ByIndexStatementBinder {
    const prepared: PreparedStatement
    const values: array<Option<DynValue>>

    ghost predicate Valid()
      reads this
    {
      values.Length == prepared.ColCount()
    }

    constructor (prepared: PreparedStatement)
      ensures Valid() && fresh(values)
      ensures this.prepared == prepared && values[..] == EmptySlots(prepared.ColCount())
    {
      this.prepared := prepared;
      values := new Option<DynValue>[prepared.ColCount()](_ => None);
    }

    method BindValueByIndex(index: nat, value: DynValue) returns (r: Outcome<ByIndexStatementBinderError>)
      requires Valid()
      modifies values
      ensures Valid()
      ensures match BindByIndex(old(values[..]), index, value)
        case Ok(s) => r == Pass && values[..] == s
        case Err(e) => r == Fail(e) && values[..] == old(values[..])
    {
      if index >= values.Length {
        return Fail(NoSuchIndex(index));
      }
      if values[index].Some? {
        return Fail(ByIndexStatementBinderError.DuplicatedValue(index));
      }
      values[index] := Some(value);
      r := Pass;
    }

    method Finish() returns (r: Result<BoundStatement, ByIndexStatementBinderError>)
      requires Valid()
      ensures r == FinishByIndex(prepared, values[..])
    {
      var serialized := EmptyValues;
      for idx := 0 to values.Length
        invariant ScanSlots(prepared.colSpecs, values[..], 0, EmptyValues)
               == ScanSlots(prepared.colSpecs, values[..], idx, serialized)
      {
        var value := values[idx];
        if value.None? {
          return Err(MissingValueAtIndex(idx));
        }
        match AddValue(serialized, value.value, prepared.colSpecs[idx].typ) {
          case Err(e) =>
            return Err(ByIndexStatementBinderError.Serialization(e));
          case Ok(v) =>
            serialized := v;
        }
      }
      return Ok(BoundStatement(prepared, serialized));
    }
  }

  // ---------------------------------------------------------------------
  // Binding by name

  datatype ByNameStatementBinderError =
    | NoSuchName(name: string)
    | MissingValueForParameter(name: string)
    | DuplicatedValue(name: string)
    | Serialization(error: SerializationError)

  /** The position of the first marker called `name`, if there is one. */
  function FirstIndexOf(specs: seq<ColSpec>, name: string): (r: Option<nat>)
    ensures r.None? <==> forall k :: 0 <= k < |specs| ==> specs[k].name != name
    ensures r.Some? ==>
      && r.value < |specs| && specs[r.value].name == name
      && forall k :: 0 <= k < r.value ==> specs[k].name != name
  {
    if |specs| == 0 then None
    else if specs[0].name == name then Some(0)
    else
      match FirstIndexOf(specs[1..], name)
      case None => None
      case Some(k) => Some(k + 1)
  }

  /** One `bind_value_by_name` step on the slots: the name selects the slot
      of its first marker. */
  function BindByName(specs: seq<ColSpec>, slots: Slots, name: string, value: DynValue): (r: Result<Slots, ByNameStatementBinderError>)
    requires |slots| == |specs|
    ensures r == Err(NoSuchName(name)) <==> FirstIndexOf(specs, name).None?
    ensures r == Err(ByNameStatementBinderError.DuplicatedValue(name)) <==>
      FirstIndexOf(specs, name).Some? && slots[FirstIndexOf(specs, name).value].Some?
    ensures r.Ok? <==> FirstIndexOf(specs, name).Some? && slots[FirstIndexOf(specs, name).value].None?
    ensures r.Ok? ==>
      && |r.value| == |slots| && r.value[FirstIndexOf(specs, name).value] == Some(value)
      && forall k :: 0 <= k < |slots| && k != FirstIndexOf(specs, name).value ==> r.value[k] == slots[k]
  {
    match FirstIndexOf(specs, name)
    case None => Err(NoSuchName(name))
    case Some(k) =>
      if slots[k].Some? then Err(ByNameStatementBinderError.DuplicatedValue(name))
      else Ok(slots[k := Some(value)])
  }

  /** The result of `finish` on a by-name binder holding `slots`: as by index,
      except that a missing value is reported by its marker's name. */
  function FinishByName(prepared: PreparedStatement, slots: Slots): (r: Result<BoundStatement, ByNameStatementBinderError>)
    requires |slots| == prepared.ColCount()
    ensures r.Ok? <==> ReadyBetween(prepared.colSpecs, slots, 0, |slots|)
    ensures r.Ok? ==>
      && r.value.prepared == prepared
      && |r.value.values.elements| == |slots|
      && forall k :: 0 <= k < |slots| ==>
           slots[k].Some? && Encode(slots[k].value, prepared.colSpecs[k].typ) == Ok(r.value.values.elements[k])
    ensures r.Err? ==> r.error.MissingValueForParameter? || r.error.Serialization?
    ensures r.Err? && r.error.MissingValueForParameter? ==>
      exists k :: 0 <= k < |slots| && slots[k].None?
        && prepared.colSpecs[k].name == r.error.name
        && ReadyBetween(prepared.colSpecs, slots, 0, k)
    ensures r.Err? && r.error.Serialization? ==>
      exists k :: 0 <= k < |slots| && slots[k].Some?
        && Encode(slots[k].value, prepared.colSpecs[k].typ) == Err(r.error.error)
        && ReadyBetween(prepared.colSpecs, slots, 0, k)
  {
    match ScanSlots(prepared.colSpecs, slots, 0, EmptyValues)
    case Ok(values) => Ok(BoundStatement(prepared, values))
    case Err(MissingAt(idx)) => Err(MissingValueForParameter(prepared.colSpecs[idx].name))
    case Err(EncodeFailed(idx, e)) => Err(ByNameStatementBinderError.Serialization(e))
  }

  /** Binds values to markers by name; serialization waits for `Finish`. */
  class ByNameStatementBinder {
    const prepared: PreparedStatement
    const values: array<Option<DynValue>>

    ghost predicate Valid()
      reads this
    {
      values.Length == prepared.ColCount()
    }

    constructor (prepared: PreparedStatement)
      ensures Valid() && fresh(values)
      ensures this.prepared == prepared && values[..] == EmptySlots(prepared.ColCount())
    {
      this.prepared := prepared;
      values := new Option<DynValue>[prepared.ColCount()](_ => None);
    }

    method BindValueByName(name: string, value: DynValue) returns (r: Outcome<ByNameStatementBinderError>)
      requires Valid()
      modifies values
      ensures Valid()
      ensures match BindByName(prepared.colSpecs, old(values[..]), name, value)
        case Ok(s) => r == Pass && values[..] == s
        case Err(e) => r == Fail(e) && values[..] == old(values[..])
    {
      var i := 0;
      while i < values.Length && prepared.colSpecs[i].name != name
        invariant 0 <= i <= values.Length
        invariant forall k :: 0 <= k < i ==> prepared.colSpecs[k].name != name
      {
        i := i + 1;
      }
      if i == values.Length {
        return Fail(NoSuchName(name));
      }
      if values[i].Some? {
        return Fail(ByNameStatementBinderError.DuplicatedValue(name));
      }
      values[i] := Some(value);
      r := Pass;
    }

    method Finish() returns (r: Result<BoundStatement, ByNameStatementBinderError>)
      requires Valid()
      ensures r == FinishByName(prepared, values[..])
    {
      var serialized := EmptyValues;
      for idx := 0 to values.Length
        invariant ScanSlots(prepared.colSpecs, values[..], 0, EmptyValues)
               == ScanSlots(prepared.colSpecs, values[..], idx, serialized)
      {
        var value := values[idx];
        if value.None? {
          return Err(MissingValueForParameter(prepared.colSpecs[idx].name));
        }
        match AddValue(serialized, value.value, prepared.colSpecs[idx].typ) {
          case Err(e) =>
            return Err(ByNameStatementBinderError.Serialization(e));
          case Ok(v) =>
            serialized := v;
        }
      }
      return Ok(BoundStatement(prepared, serialized));
    }
  }
}
