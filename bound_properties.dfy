/** Properties of whole binding sessions: a sequence of bind calls on a fresh
    binder followed by `finish`. */
module BoundProperties {
  import opened Wrappers
  import opened Cql
  import opened Prepared
  import opened Bound

  // ---------------------------------------------------------------------
  // Appending

  /** Calls `bind_next_value` with each of `vs` in turn; the first error ends the session. */
  function AppendAll(prepared: PreparedStatement, values: SerializedValues, vs: seq<DynValue>): (r: Result<SerializedValues, AppendingStatementBinderError>)
    requires values.ElementCount() <= prepared.ColCount()
    decreases |vs|
    ensures r.Ok? ==> r.value.ElementCount() <= prepared.ColCount()
  {
    if vs == [] then Ok(values)
    else
      match BindNext(prepared, values, vs[0])
      case Err(e) => Err(e)
      case Ok(v) => AppendAll(prepared, v, vs[1..])
  }

  /** Appends `vs` to a fresh appending binder, then finishes it. */
  function AppendThenFinish(prepared: PreparedStatement, vs: seq<DynValue>): Result<BoundStatement, AppendingStatementBinderError>
  {
    match AppendAll(prepared, EmptyValues, vs)
    case Err(e) => Err(e)
    case Ok(values) => FinishAppending(prepared, values)
  }

  /** The `j`-th appended value, bound after `c` earlier ones, meets a marker and encodes for its type. */
  ghost predicate EncodesAt(prepared: PreparedStatement, c: nat, vs: seq<DynValue>, j: int)
  {
    0 <= j < |vs| && c + j < prepared.ColCount() && Encode(vs[j], prepared.colSpecs[c + j].typ).Ok?
  }

  /** An appending session from `values` succeeds exactly when every value
      meets a marker and encodes for it; the encodings are appended in order. */
  lemma {:induction false} AppendAllSucceeds(prepared: PreparedStatement, values: SerializedValues, vs: seq<DynValue>)
    requires values.ElementCount() <= prepared.ColCount()
    decreases |vs|
    ensures var c := values.ElementCount(); var r := AppendAll(prepared, values, vs);
      && (r.Ok? <==> |vs| <= prepared.ColCount() - c && forall j :: 0 <= j < |vs| ==> EncodesAt(prepared, c, vs, j))
      && (r.Ok? ==>
            && |r.value.elements| == c + |vs|
            && r.value.elements[..c] == values.elements
            && forall j :: 0 <= j < |vs| ==>
                 c + j < prepared.ColCount() && Encode(vs[j], prepared.colSpecs[c + j].typ) == Ok(r.value.elements[c + j]))
  {
    var c := values.ElementCount();
    if vs == [] {
      return;
    }
    if c == prepared.ColCount() {
      assert !EncodesAt(prepared, c, vs, 0);
      return;
    }
    match Encode(vs[0], prepared.colSpecs[c].typ)
    case Err(e) =>
      assert !EncodesAt(prepared, c, vs, 0);
    case Ok(bytes) =>
      var v := SerializedValues(values.elements + [bytes]);
      var tail := vs[1..];
      var c1 := c + 1;
      AppendAllSucceeds(prepared, v, tail);
      var r := AppendAll(prepared, values, vs);
      assert r == AppendAll(prepared, v, tail);
      forall j | 0 <= j < |tail|
        ensures EncodesAt(prepared, c1, tail, j) <==> EncodesAt(prepared, c, vs, j + 1)
      {
      }
      if r.Ok? {
        assert r.value.elements[..c] == r.value.elements[..c1][..c];
      }
  }

  /** Once every marker has an encodable value, one more value is refused with
      `TooManyValues` carrying the marker count. */
  lemma {:induction false} AppendAllTooMany(prepared: PreparedStatement, values: SerializedValues, vs: seq<DynValue>)
    requires values.ElementCount() <= prepared.ColCount()
    requires |vs| > prepared.ColCount() - values.ElementCount()
    requires forall j :: 0 <= j < prepared.ColCount() - values.ElementCount() ==> EncodesAt(prepared, values.ElementCount(), vs, j)
    decreases |vs|
    ensures AppendAll(prepared, values, vs) == Err(TooManyValues(prepared.ColCount()))
  {
    var c := values.ElementCount();
    if c < prepared.ColCount() {
      assert EncodesAt(prepared, c, vs, 0);
      var v := BindNext(prepared, values, vs[0]).value;
      var tail := vs[1..];
      var c1 := c + 1;
      forall j | 0 <= j < prepared.ColCount() - c1
        ensures EncodesAt(prepared, c1, tail, j)
      {
        assert EncodesAt(prepared, c, vs, j + 1);
      }
      AppendAllTooMany(prepared, v, tail);
    }
  }

  /** An appending session fails only with `TooManyValues` or with the error
      of the first value that does not encode for its marker. */
  lemma {:induction false} AppendAllFirstFailure(prepared: PreparedStatement, values: SerializedValues, vs: seq<DynValue>)
    requires values.ElementCount() <= prepared.ColCount()
    decreases |vs|
    ensures var c := values.ElementCount(); var r := AppendAll(prepared, values, vs);
      r.Err? ==>
        || r.error == TooManyValues(prepared.ColCount())
        || (&& r.error.Serialization?
            && exists j :: 0 <= j < |vs| && c + j < prepared.ColCount()
                 && Encode(vs[j], prepared.colSpecs[c + j].typ) == Err(r.error.error)
                 && forall i :: 0 <= i < j ==> EncodesAt(prepared, c, vs, i))
  {
    var c := values.ElementCount();
    if vs == [] || c == prepared.ColCount() {
      return;
    }
    match Encode(vs[0], prepared.colSpecs[c].typ)
    case Err(e) =>
    case Ok(bytes) =>
      var v := SerializedValues(values.elements + [bytes]);
      var tail := vs[1..];
      var c1 := c + 1;
      AppendAllFirstFailure(prepared, v, tail);
      var r := AppendAll(prepared, values, vs);
      assert r == AppendAll(prepared, v, tail);
      if r.Err? && r.error.Serialization? {
        var j :| 0 <= j < |tail| && c1 + j < prepared.ColCount()
          && Encode(tail[j], prepared.colSpecs[c1 + j].typ) == Err(r.error.error)
          && forall i :: 0 <= i < j ==> EncodesAt(prepared, c1, tail, i);
        assert EncodesAt(prepared, c, vs, 0);
        forall i | 0 <= i < j + 1 ensures EncodesAt(prepared, c, vs, i) {
          if i > 0 {
            assert EncodesAt(prepared, c1, tail, i - 1);
          }
        }
        assert vs[j + 1] == tail[j];
      }
  }

  /** A whole appending session: it finishes exactly when there is one value
      per marker and each encodes for its marker's type, and the bound values
      are then those encodings in marker order; too few or too many values are
      reported with the marker count. */
  lemma AppendingSession(prepared: PreparedStatement, vs: seq<DynValue>)
    ensures var n := prepared.ColCount(); var r := AppendThenFinish(prepared, vs);
      && (r.Ok? <==> |vs| == n && forall k :: 0 <= k < n ==> Encode(vs[k], prepared.colSpecs[k].typ).Ok?)
      && (r.Ok? ==>
            && r.value.prepared == prepared
            && |r.value.values.elements| == n
            && forall k :: 0 <= k < n ==> Encode(vs[k], prepared.colSpecs[k].typ) == Ok(r.value.values.elements[k]))
      && ((|vs| < n && forall k :: 0 <= k < |vs| ==> Encode(vs[k], prepared.colSpecs[k].typ).Ok?) ==>
            r == Err(TooFewValues(n, |vs|)))
      && ((|vs| > n && forall k :: 0 <= k < n ==> Encode(vs[k], prepared.colSpecs[k].typ).Ok?) ==>
            r == Err(TooManyValues(n)))
  {
    var n := prepared.ColCount();
    AppendAllSucceeds(prepared, EmptyValues, vs);
    if |vs| > n && forall k :: 0 <= k < n ==> Encode(vs[k], prepared.colSpecs[k].typ).Ok? {
      AppendAllTooMany(prepared, EmptyValues, vs);
    }
    assert forall k :: 0 <= k < |vs| ==> (EncodesAt(prepared, 0, vs, k) <==> k < n && Encode(vs[k], prepared.colSpecs[k].typ).Ok?);
  }

  // ---------------------------------------------------------------------
  // Binding by index

  datatype IndexBind = IndexBind(index: nat, value: DynValue)

  /** Calls `bind_value_by_index` with each of `binds` in turn; the first error ends the session. */
  function BindAllByIndex(slots: Slots, binds: seq<IndexBind>): (r: Result<Slots, ByIndexStatementBinderError>)
    decreases |binds|
    ensures r.Ok? ==> |r.value| == |slots|
  {
    if binds == [] then Ok(slots)
    else
      match BindByIndex(slots, binds[0].index, binds[0].value)
      case Err(e) => Err(e)
      case Ok(s) => BindAllByIndex(s, binds[1..])
  }

  /** Every bind targets an existing, still empty slot, and no two binds target the same slot. */
  ghost predicate Admissible(slots: Slots, binds: seq<IndexBind>)
  {
    && (forall k :: 0 <= k < |binds| ==> binds[k].index < |slots| && slots[binds[k].index].None?)
    && (forall j, k :: 0 <= j < k < |binds| ==> binds[j].index != binds[k].index)
  }

  /** No bind targets slot `i`. */
  ghost predicate Untouched(binds: seq<IndexBind>, i: int)
  {
    forall k :: 0 <= k < |binds| ==> binds[k].index != i
  }

  /** A by-index session succeeds exactly when its binds are admissible, and
      exactly the targeted slots then hold the bound values. */
  lemma {:induction false} BindAllByIndexCharacterized(slots: Slots, binds: seq<IndexBind>)
    decreases |binds|
    ensures BindAllByIndex(slots, binds).Ok? <==> Admissible(slots, binds)
    ensures BindAllByIndex(slots, binds).Ok? ==>
      var t := BindAllByIndex(slots, binds).value;
      && |t| == |slots|
      && (forall k :: 0 <= k < |binds| ==> t[binds[k].index] == Some(binds[k].value))
      && (forall i :: 0 <= i < |slots| && Untouched(binds, i) ==> t[i] == slots[i])
  {
    if binds == [] {
      return;
    }
    var b := binds[0];
    var rest := binds[1..];
    match BindByIndex(slots, b.index, b.value)
    case Err(e) =>
      assert !(b.index < |slots| && slots[b.index].None?);
    case Ok(s1) =>
      BindAllByIndexCharacterized(s1, rest);
      assert BindAllByIndex(slots, binds) == BindAllByIndex(s1, rest);
      if Admissible(slots, binds) {
        assert Admissible(s1, rest) by {
          forall k | 0 <= k < |rest|
            ensures rest[k].index < |s1| && s1[rest[k].index].None?
          {
            assert binds[0].index != binds[k + 1].index;
          }
          forall j, k | 0 <= j < k < |rest|
            ensures rest[j].index != rest[k].index
          {
            assert binds[j + 1].index != binds[k + 1].index;
          }
        }
      }
      if Admissible(s1, rest) {
        assert Admissible(slots, binds) by {
          forall k | 0 <= k < |binds|
            ensures binds[k].index < |slots| && slots[binds[k].index].None?
          {
            if k > 0 {
              assert rest[k - 1] == binds[k];
            }
          }
          forall j, k | 0 <= j < k < |binds|
            ensures binds[j].index != binds[k].index
          {
            if j == 0 {
              assert s1[binds[k].index].None?;
            } else {
              assert rest[j - 1] == binds[j] && rest[k - 1] == binds[k];
            }
          }
        }
      }
      if BindAllByIndex(s1, rest).Ok? {
        var t := BindAllByIndex(s1, rest).value;
        forall k | 0 <= k < |binds|
          ensures t[binds[k].index] == Some(binds[k].value)
        {
          if k == 0 {
            assert Untouched(rest, b.index) by {
              forall k' | 0 <= k' < |rest| ensures rest[k'].index != b.index {
                assert s1[rest[k'].index].None?;
              }
            }
          } else {
            assert rest[k - 1] == binds[k];
          }
        }
        forall i | 0 <= i < |slots| && Untouched(binds, i)
          ensures t[i] == slots[i]
        {
          assert binds[0].index != i;
          assert Untouched(rest, i) by {
            forall k | 0 <= k < |rest| ensures rest[k].index != i {
              assert rest[k] == binds[k + 1];
            }
          }
        }
      }
  }

  /** Two binds in a row on different slots commute; on the same slot the
      second fails, so a successful pair always targets different slots. */
  lemma SwapAdjacent(slots: Slots, a: IndexBind, b: IndexBind, rest: seq<IndexBind>)
    requires BindAllByIndex(slots, [a, b] + rest).Ok?
    ensures BindAllByIndex(slots, [b, a] + rest) == BindAllByIndex(slots, [a, b] + rest)
  {
    assert ([a, b] + rest)[0] == a && ([a, b] + rest)[1..] == [b] + rest;
    assert ([b] + rest)[0] == b && ([b] + rest)[1..] == rest;
    assert ([b, a] + rest)[0] == b && ([b, a] + rest)[1..] == [a] + rest;
    assert ([a] + rest)[0] == a && ([a] + rest)[1..] == rest;
    var s1 := BindByIndex(slots, a.index, a.value).value;
    var s2 := BindByIndex(s1, b.index, b.value).value;
    assert BindAllByIndex(slots, [a, b] + rest) == BindAllByIndex(s2, rest);
    var t1 := BindByIndex(slots, b.index, b.value).value;
    var t2 := BindByIndex(t1, a.index, a.value).value;
    assert t2 == s2;
  }

  /** Moving the first bind of a successful session further back changes nothing. */
  lemma {:induction false} MoveBack(slots: Slots, x: IndexBind, before: seq<IndexBind>, after: seq<IndexBind>)
    requires BindAllByIndex(slots, [x] + before + after).Ok?
    decreases |before|
    ensures BindAllByIndex(slots, before + [x] + after) == BindAllByIndex(slots, [x] + before + after)
  {
    if before == [] {
      assert before + [x] + after == [x] + before + after;
      return;
    }
    var y := before[0];
    var tail := before[1..];
    assert [x] + before + after == [x, y] + (tail + after);
    SwapAdjacent(slots, x, y, tail + after);
    assert ([y, x] + (tail + after))[0] == y && ([y, x] + (tail + after))[1..] == [x] + tail + after;
    var s1 := BindByIndex(slots, y.index, y.value).value;
    assert BindAllByIndex(slots, [y, x] + (tail + after)) == BindAllByIndex(s1, [x] + tail + after);
    MoveBack(s1, x, tail, after);
    assert before + [x] + after == [y] + (tail + [x] + after);
    assert ([y] + (tail + [x] + after))[0] == y && ([y] + (tail + [x] + after))[1..] == tail + [x] + after;
  }

  /** Removing the head of `b1` and a matching element of `b2` keeps two permutations permutations. */
  lemma RemoveMatching(b1: seq<IndexBind>, b2: seq<IndexBind>) returns (k: nat)
    requires multiset(b1) == multiset(b2) && b1 != []
    ensures k < |b2| && b2[k] == b1[0]
    ensures b2 == b2[..k] + [b1[0]] + b2[k + 1..]
    ensures multiset(b1[1..]) == multiset(b2[..k] + b2[k + 1..])
  {
    var x := b1[0];
    var r1 := b1[1..];
    assert b1 == [x] + r1;
    assert x in multiset(b2);
    k :| 0 <= k < |b2| && b2[k] == x;
    var before, after := b2[..k], b2[k + 1..];
    assert b2 == before + [x] + after;
    forall e ensures multiset(r1)[e] == multiset(before + after)[e] {
      assert multiset(b1)[e] == multiset([x])[e] + multiset(r1)[e];
      assert multiset(b2)[e] == multiset(before)[e] + multiset([x])[e] + multiset(after)[e];
    }
  }

  /** A successful by-index session ends in the same slots whatever the order of its binds. */
  lemma {:induction false} PermutedBindsAgree(slots: Slots, b1: seq<IndexBind>, b2: seq<IndexBind>)
    requires multiset(b1) == multiset(b2)
    requires BindAllByIndex(slots, b1).Ok?
    decreases |b1|
    ensures BindAllByIndex(slots, b2) == BindAllByIndex(slots, b1)
  {
    if b1 == [] {
      assert |b2| == |multiset(b2)| == 0;
      return;
    }
    var x := b1[0];
    var r1 := b1[1..];
    var k := RemoveMatching(b1, b2);
    var before, after := b2[..k], b2[k + 1..];
    var s1 := BindByIndex(slots, x.index, x.value).value;
    assert BindAllByIndex(slots, b1) == BindAllByIndex(s1, r1);
    PermutedBindsAgree(s1, r1, before + after);
    assert ([x] + before + after)[0] == x && ([x] + before + after)[1..] == before + after;
    MoveBack(slots, x, before, after);
  }

  /** The result of a by-index session does not depend on the order of its
      binds: reordering them neither turns success into failure nor changes
      the bound statement `finish` produces. */
  lemma BindOrderIrrelevant(prepared: PreparedStatement, slots: Slots, b1: seq<IndexBind>, b2: seq<IndexBind>)
    requires |slots| == prepared.ColCount()
    requires multiset(b1) == multiset(b2)
    ensures BindAllByIndex(slots, b1).Ok? <==> BindAllByIndex(slots, b2).Ok?
    ensures BindAllByIndex(slots, b1).Ok? ==>
      FinishByIndex(prepared, BindAllByIndex(slots, b1).value) == FinishByIndex(prepared, BindAllByIndex(slots, b2).value)
  {
    if BindAllByIndex(slots, b1).Ok? {
      PermutedBindsAgree(slots, b1, b2);
    }
    if BindAllByIndex(slots, b2).Ok? {
      PermutedBindsAgree(slots, b2, b1);
    }
  }

  // ---------------------------------------------------------------------
  // Binding by name

  datatype NameBind = NameBind(name: string, value: DynValue)

  /** Calls `bind_value_by_name` with each of `binds` in turn; the first error ends the session. */
  function BindAllByName(specs: seq<ColSpec>, slots: Slots, binds: seq<NameBind>): (r: Result<Slots, ByNameStatementBinderError>)
    requires |slots| == |specs|
    decreases |binds|
    ensures r.Ok? ==> |r.value| == |slots|
  {
    if binds == [] then Ok(slots)
    else
      match BindByName(specs, slots, binds[0].name, binds[0].value)
      case Err(e) => Err(e)
      case Ok(s) => BindAllByName(specs, s, binds[1..])
  }

  /** A marker that shares its name with an earlier marker has no value. */
  ghost predicate OnlyFirstOccurrencesFilled(specs: seq<ColSpec>, slots: Slots)
  {
    forall i, j :: 0 <= i < j < |slots| && j < |specs| && specs[i].name == specs[j].name ==> slots[j].None?
  }

  /** Binding by name never fills a marker whose name an earlier marker already has. */
  lemma {:induction false} ByNameFillsOnlyFirstOccurrences(specs: seq<ColSpec>, slots: Slots, binds: seq<NameBind>)
    requires |slots| == |specs|
    requires OnlyFirstOccurrencesFilled(specs, slots)
    requires BindAllByName(specs, slots, binds).Ok?
    decreases |binds|
    ensures OnlyFirstOccurrencesFilled(specs, BindAllByName(specs, slots, binds).value)
  {
    if binds == [] {
      return;
    }
    var s1 := BindByName(specs, slots, binds[0].name, binds[0].value).value;
    var target := FirstIndexOf(specs, binds[0].name).value;
    assert OnlyFirstOccurrencesFilled(specs, s1) by {
      forall i, j | 0 <= i < j < |s1| && j < |specs| && specs[i].name == specs[j].name
        ensures s1[j].None?
      {
      }
    }
    ByNameFillsOnlyFirstOccurrences(specs, s1, binds[1..]);
  }

  /** When two markers share a name, no by-name session on a fresh binder can
      fill the later one, so `finish` can never succeed. */
  lemma DuplicateNameNeverFinishes(prepared: PreparedStatement, binds: seq<NameBind>, slots: Slots, i: nat, j: nat)
    requires i < j < prepared.ColCount()
    requires prepared.colSpecs[i].name == prepared.colSpecs[j].name
    requires BindAllByName(prepared.colSpecs, EmptySlots(prepared.ColCount()), binds) == Ok(slots)
    ensures slots[j].None?
    ensures FinishByName(prepared, slots).Err?
  {
    ByNameFillsOnlyFirstOccurrences(prepared.colSpecs, EmptySlots(prepared.ColCount()), binds);
    assert !ColumnReady(prepared.colSpecs, slots, j);
  }

  // ---------------------------------------------------------------------
  // The binders agree

  /** Binding value `k` to marker `k` for every marker. */
  function InOrder(vs: seq<DynValue>): (binds: seq<IndexBind>)
    ensures |binds| == |vs|
    ensures forall k :: 0 <= k < |vs| ==> binds[k] == IndexBind(k, vs[k])
  {
    seq(|vs|, k requires 0 <= k < |vs| => IndexBind(k, vs[k]))
  }

  /** Appending one value per marker and binding the same values by index, in
      marker order, either both fail or both finish with the same bound statement. */
  lemma AppendingAgreesWithByIndex(prepared: PreparedStatement, vs: seq<DynValue>)
    requires |vs| == prepared.ColCount()
    ensures BindAllByIndex(EmptySlots(|vs|), InOrder(vs)).Ok?
    ensures var byIndex := FinishByIndex(prepared, BindAllByIndex(EmptySlots(|vs|), InOrder(vs)).value);
      var appending := AppendThenFinish(prepared, vs);
      && (byIndex.Ok? <==> appending.Ok?)
      && (byIndex.Ok? ==> byIndex.value == appending.value)
  {
    var n := |vs|;
    var binds := InOrder(vs);
    BindAllByIndexCharacterized(EmptySlots(n), binds);
    var slots := BindAllByIndex(EmptySlots(n), binds).value;
    forall k | 0 <= k < n ensures slots[k] == Some(vs[k]) {
      assert binds[k].index == k;
    }
    AppendingSession(prepared, vs);
    var byIndex := FinishByIndex(prepared, slots);
    var appending := AppendThenFinish(prepared, vs);
    assert byIndex.Ok? <==> forall k :: 0 <= k < n ==> Encode(vs[k], prepared.colSpecs[k].typ).Ok? by {
      assert forall k :: 0 <= k < n ==> (ColumnReady(prepared.colSpecs, slots, k) <==> Encode(vs[k], prepared.colSpecs[k].typ).Ok?);
    }
    if byIndex.Ok? {
      var e1, e2 := byIndex.value.values.elements, appending.value.values.elements;
      assert forall k :: 0 <= k < n ==> Encode(vs[k], prepared.colSpecs[k].typ) == Ok(e1[k]);
      assert e1 == e2;
    }
  }
}
