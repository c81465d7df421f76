/** The data logic of the macros dialog: turning an edit session's change
    set into the flat list of operations the backend's `set_macros` call
    takes (`getChangedMacros`), and the maps and filters the dialog applies
    to the rows it loads and saves. */
module MacrosDialog {
  import opened JsValues

  /** A row object of the editor's change set. Rows are objects because
      `getChangedMacros` updates the added ones in place. */
  class MacroRow {
    var fields: Row

    constructor (fields: Row)
      ensures this.fields == fields
    {
      this.fields := fields;
    }
  }

  /** The properties of a list of row objects, in order. */
  function Rows(ms: seq<MacroRow>): (rows: seq<Row>)
    reads ms
    ensures |rows| == |ms|
    ensures forall i :: 0 <= i < |ms| ==> rows[i] == ms[i].fields
  {
    seq(|ms|, i reads ms requires 0 <= i < |ms| => ms[i].fields)
  }

  // -----------------------------------------------------------------------
  // The baseline lookup: `_.find(userMacrosData, (d)=>d.id==m.id)`

  /** The first baseline row whose `id` loosely equals `id`. */
  function FindById(baseline: seq<Row>, id: Value): (r: Option<Row>)
    ensures r.None? <==> forall i :: 0 <= i < |baseline| ==> !LooseEquals(Get(baseline[i], "id"), id)
    ensures r.Some? ==> exists i :: 0 <= i < |baseline| && baseline[i] == r.value
                                  && LooseEquals(Get(baseline[i], "id"), id)
                                  && forall j :: 0 <= j < i ==> !LooseEquals(Get(baseline[j], "id"), id)
  {
    if baseline == [] then None
    else if LooseEquals(Get(baseline[0], "id"), id) then Some(baseline[0])
    else
      var r := FindById(baseline[1..], id);
      assert forall i :: 0 < i < |baseline| ==> baseline[i] == baseline[1..][i - 1];
      if r.Some? then
        var i :| 0 <= i < |baseline| - 1 && baseline[1..][i] == r.value
                 && LooseEquals(Get(baseline[1..][i], "id"), id)
                 && forall j :: 0 <= j < i ==> !LooseEquals(Get(baseline[1..][j], "id"), id);
        assert baseline[i + 1] == r.value;
        r
      else r
  }

  // -----------------------------------------------------------------------
  // One operation per change-set row

  /** `m.k ? m.k : em.k`: reading `em.k` throws when no baseline row was
      found, but only when `m.k` is falsy. */
  function Fallback(m: Row, em: Option<Row>, k: string): Completion<Value>
  {
    if Truthy(Get(m, k)) then Normal(Get(m, k))
    else match em
      case Some(e) => Normal(Get(e, k))
      case None => Throw(TypeError)
  }

  /** The operation for one edited row, as the loop body builds it. A row
      with an `id` becomes `{name: .., sql: .., mid: .., ...m}`; a row without
      one becomes a copy of `m` with `id` set to `m.mid`. */
  function ChangedEntry(baseline: seq<Row>, m: Row): Completion<Row>
  {
    if "id" in m then
      var em := FindById(baseline, m["id"]);
      match Fallback(m, em, "name")
      case Throw(e) => Throw(e)
      case Normal(name) =>
        match Fallback(m, em, "sql")
        case Throw(e) => Throw(e)
        case Normal(sql) =>
          match Fallback(m, em, "mid")
          case Throw(e) => Throw(e)
          case Normal(mid) => Normal(map["name" := name, "sql" := sql, "mid" := mid] + m)
    else
      Normal(m["id" := Get(m, "mid")])
  }

  const BackfilledKeys: set<string> := {"name", "sql", "mid"}

  /** Because `...m` comes last, every property of `m` wins, even a falsy
      one; only `name`, `sql` and `mid` that `m` lacks are taken from the
      first baseline row with a matching `id`. The entry throws exactly when
      there is no such row and one of the three is falsy in `m`. */
  lemma ChangedEntryWithId(baseline: seq<Row>, m: Row)
    requires "id" in m
    ensures var em := FindById(baseline, m["id"]);
      ChangedEntry(baseline, m).Throw? <==>
        em.None? && !(Truthy(Get(m, "name")) && Truthy(Get(m, "sql")) && Truthy(Get(m, "mid")))
    ensures var em := FindById(baseline, m["id"]);
      ChangedEntry(baseline, m).Normal? ==>
        var r := ChangedEntry(baseline, m).value;
        && r.Keys == m.Keys + BackfilledKeys
        && (forall k :: k in m ==> r[k] == m[k])
        && (forall k :: k in BackfilledKeys && k !in m ==> r[k] == Get(em.value, k))
  {
  }

  /** A row without an `id` is emitted as a copy carrying `id := m.mid`;
      no property is taken from the baseline. */
  lemma ChangedEntryWithoutId(baseline: seq<Row>, m: Row)
    requires "id" !in m
    ensures ChangedEntry(baseline, m).Normal?
    ensures var r := ChangedEntry(baseline, m).value;
      r.Keys == m.Keys + {"id"} && r["id"] == Get(m, "mid")
      && forall k :: k in m ==> r[k] == m[k]
  {
  }

  /** The deletion record for a deleted row: `{id: m.id, name: null, sql: null}`. */
  function Tombstone(m: Row): (r: Row)
    ensures r.Keys == {"id", "name", "sql"}
    ensures r["id"] == Get(m, "id") && r["name"] == Null && r["sql"] == Null
  {
    map["id" := Get(m, "id"), "name" := Null, "sql" := Null]
  }

  /** What the added-row loop does to a row: a truthy `id` moves to `mid`. */
  function Promote(m: Row): Row
  {
    if Truthy(Get(m, "id")) && Get(m, "id") != Int(0) then m["mid" := m["id"]] - {"id"} else m
  }

  /** An added row with a truthy `id` loses its `id` and carries the value
      as `mid`; every other property is kept. A row whose `id` is falsy or
      absent is left as it is. */
  lemma PromoteMeaning(m: Row)
    ensures Truthy(Get(m, "id")) ==>
      && "id" !in Promote(m)
      && Promote(m).Keys == m.Keys - {"id"} + {"mid"}
      && Promote(m)["mid"] == m["id"]
      && forall k :: k in m && k != "id" && k != "mid" ==> Promote(m)[k] == m[k]
    ensures !Truthy(Get(m, "id")) ==> Promote(m) == m
  {
  }

  /** Promoting twice is promoting once, so an added row listed twice ends
      up as if it were listed once. */
  lemma PromoteIdempotent(m: Row)
    ensures Promote(Promote(m)) == Promote(m)
  {
  }

  // -----------------------------------------------------------------------
  // The whole change set

  predicate ChangedThrows(baseline: seq<Row>, changed: seq<Row>)
  {
    exists i :: 0 <= i < |changed| && ChangedEntry(baseline, changed[i]).Throw?
  }

  /** The operations `getChangedMacros` returns, on the rows' values before
      the call: the edited rows' operations, then one tombstone per deleted
      row, then the added rows after promotion. */
  function ChangedMacros(baseline: seq<Row>, changed: seq<Row>, deleted: seq<Row>, added: seq<Row>)
    : Completion<seq<Row>>
  {
    if ChangedThrows(baseline, changed) then Throw(TypeError)
    else Normal(
      seq(|changed|, i requires 0 <= i < |changed| => ChangedEntry(baseline, changed[i]).value)
      + seq(|deleted|, i requires 0 <= i < |deleted| => Tombstone(deleted[i]))
      + seq(|added|, i requires 0 <= i < |added| => Promote(added[i])))
  }

  /** One operation per row of the change set, in the order edited,
      deleted, added, each group in its input order; the deleted rows
      become exactly their tombstones. */
  lemma ChangedMacrosLayout(baseline: seq<Row>, changed: seq<Row>, deleted: seq<Row>, added: seq<Row>)
    requires !ChangedThrows(baseline, changed)
    ensures var r := ChangedMacros(baseline, changed, deleted, added);
      && r.Normal?
      && |r.value| == |changed| + |deleted| + |added|
      && (forall i :: 0 <= i < |changed| ==> Normal(r.value[i]) == ChangedEntry(baseline, changed[i]))
      && (forall i :: 0 <= i < |deleted| ==>
            r.value[|changed| + i] == map["id" := Get(deleted[i], "id"), "name" := Null, "sql" := Null])
      && (forall i :: 0 <= i < |added| ==> r.value[|changed| + |deleted| + i] == Promote(added[i]))
  {
  }

  /** The call throws exactly when some edited row with an `id` has no
      matching baseline row and a falsy `name`, `sql` or `mid`. */
  lemma ChangedMacrosThrows(baseline: seq<Row>, changed: seq<Row>, deleted: seq<Row>, added: seq<Row>)
    ensures ChangedMacros(baseline, changed, deleted, added).Throw? <==>
      exists i :: 0 <= i < |changed| && "id" in changed[i]
        && FindById(baseline, changed[i]["id"]).None?
        && !(Truthy(Get(changed[i], "name")) && Truthy(Get(changed[i], "sql"))
             && Truthy(Get(changed[i], "mid")))
  {
    if ChangedThrows(baseline, changed) {
      var i :| 0 <= i < |changed| && ChangedEntry(baseline, changed[i]).Throw?;
      ChangedEntryWithId(baseline, changed[i]);
    }
    forall i | 0 <= i < |changed| && "id" in changed[i]
      ensures ChangedEntry(baseline, changed[i]).Throw? <==>
        FindById(baseline, changed[i]["id"]).None?
        && !(Truthy(Get(changed[i], "name")) && Truthy(Get(changed[i], "sql"))
             && Truthy(Get(changed[i], "mid")))
    {
      ChangedEntryWithId(baseline, changed[i]);
    }
  }

  /** When every edited row with an `id` has its baseline row, the call
      returns. */
  lemma BaselineCompleteReturns(baseline: seq<Row>, changed: seq<Row>, deleted: seq<Row>, added: seq<Row>)
    requires forall i :: 0 <= i < |changed| && "id" in changed[i] ==>
      exists j :: 0 <= j < |baseline| && LooseEquals(Get(baseline[j], "id"), changed[i]["id"])
    ensures ChangedMacros(baseline, changed, deleted, added).Normal?
  {
    ChangedMacrosThrows(baseline, changed, deleted, added);
  }

  /** A row with one macro (key 5) as the backend stores it. */
  const ExampleBaseline: seq<Row> :=
    [map["id" := Int(1), "mid" := Int(5), "name" := Str("a"), "sql" := Str("select 1")]]

  /** An edit of the name alone takes `sql` and `mid` from the baseline;
      an edit that empties the name sends the empty name, because the
      edited row's own value wins even when it is falsy. */
  lemma EditedRowExamples()
    ensures ChangedMacros(ExampleBaseline, [map["id" := Int(1), "name" := Str("b")]], [], [])
            == Normal([map["id" := Int(1), "mid" := Int(5), "name" := Str("b"), "sql" := Str("select 1")]])
    ensures ChangedMacros(ExampleBaseline, [map["id" := Int(1), "name" := Str("")]], [], [])
            == Normal([map["id" := Int(1), "mid" := Int(5), "name" := Str(""), "sql" := Str("select 1")]])
  {
    var b := ExampleBaseline;
    assert FindById(b, Int(1)) == Some(b[0]);
    var renamed, emptied := map["id" := Int(1), "name" := Str("b")], map["id" := Int(1), "name" := Str("")];
    var wantRenamed := map["id" := Int(1), "mid" := Int(5), "name" := Str("b"), "sql" := Str("select 1")];
    var wantEmptied := map["id" := Int(1), "mid" := Int(5), "name" := Str(""), "sql" := Str("select 1")];

    var r := map["name" := Str("b"), "sql" := Str("select 1"), "mid" := Int(5)] + renamed;
    assert ChangedEntry(b, renamed) == Normal(r);
    assert r.Keys == wantRenamed.Keys;
    assert r == wantRenamed;
    assert !ChangedThrows(b, [renamed]);
    ChangedMacrosLayout(b, [renamed], [], []);
    assert ChangedMacros(b, [renamed], [], []).value == [wantRenamed];

    var e := map["name" := Str("a"), "sql" := Str("select 1"), "mid" := Int(5)] + emptied;
    assert ChangedEntry(b, emptied) == Normal(e);
    assert e.Keys == wantEmptied.Keys;
    assert e == wantEmptied;
    assert !ChangedThrows(b, [emptied]);
    ChangedMacrosLayout(b, [emptied], [], []);
    assert ChangedMacros(b, [emptied], [], []).value == [wantEmptied];
  }

  /** A deleted row becomes its tombstone. */
  lemma DeletedRowExample()
    ensures ChangedMacros([], [], [map["id" := Int(1)]], [])
            == Normal([map["id" := Int(1), "name" := Null, "sql" := Null]])
  {
    var d := map["id" := Int(1)];
    ChangedMacrosLayout([], [], [d], []);
    assert ChangedMacros([], [], [d], []).value == [Tombstone(d)];
  }

  /** An added row's `id` becomes its `mid`, and no `id` is sent. */
  lemma AddedRowExample()
    ensures ChangedMacros([], [], [], [map["id" := Int(42), "name" := Str("c"), "sql" := Str("select 2")]])
            == Normal([map["mid" := Int(42), "name" := Str("c"), "sql" := Str("select 2")]])
  {
    var a := map["id" := Int(42), "name" := Str("c"), "sql" := Str("select 2")];
    var want := map["mid" := Int(42), "name" := Str("c"), "sql" := Str("select 2")];
    assert Promote(a).Keys == want.Keys;
    assert Promote(a) == want;
    ChangedMacrosLayout([], [], [], [a]);
    assert ChangedMacros([], [], [], [a]).value == [want];
  }

  /** `getChangedMacros(userMacrosData, changeData)`, with the three groups
      of `changeData.macro` given as lists (an absent group is the empty
      list). Edited rows are copied, tombstones are new objects, and the
      added rows are updated in place and returned themselves. Each of the
      source's three loops is one of the methods below. */
  method GetChangedMacros(userMacros: seq<Row>, changed: seq<MacroRow>, deleted: seq<MacroRow>,
                          added: seq<MacroRow>)
    returns (r: Completion<seq<MacroRow>>)
    modifies added
    ensures var spec := ChangedMacros(userMacros, old(Rows(changed)), old(Rows(deleted)), old(Rows(added)));
      r.Normal? == spec.Normal? && (r.Normal? ==> Rows(r.value) == spec.value)
    ensures r.Normal? ==> r.value[|changed| + |deleted|..] == added
    ensures r.Normal? ==> forall i :: 0 <= i < |changed| + |deleted| ==> fresh(r.value[i])
    ensures r.Normal? ==> forall a :: a in added ==> a.fields == Promote(old(a.fields))
    ensures r.Throw? ==> forall a :: a in added ==> a.fields == old(a.fields)
  {
    var edited := EditedOperations(userMacros, changed);
    if edited.Throw? {
      return Throw(edited.error);
    }
    var tombstones := DeletionOperations(deleted);
    PromoteAdded(added);
    r := Normal(edited.value + tombstones + added);
  }

  /** The first loop: one new object per edited row, holding its operation;
      the first row whose operation throws ends the call. */
  method EditedOperations(userMacros: seq<Row>, changed: seq<MacroRow>)
    returns (r: Completion<seq<MacroRow>>)
    ensures r.Normal? <==> !ChangedThrows(userMacros, Rows(changed))
    ensures r.Normal? ==> |r.value| == |changed|
    ensures r.Normal? ==> forall k :: 0 <= k < |changed| ==>
      fresh(r.value[k]) && Normal(r.value[k].fields) == ChangedEntry(userMacros, changed[k].fields)
  {
    var out: seq<MacroRow> := [];
    var i := 0;
    while i < |changed|
      invariant 0 <= i <= |changed| && |out| == i
      invariant forall k :: 0 <= k < i ==>
        fresh(out[k]) && Normal(out[k].fields) == ChangedEntry(userMacros, changed[k].fields)
    {
      var m := changed[i];
      match ChangedEntry(userMacros, m.fields)
      case Throw(e) =>
        assert Rows(changed)[i] == m.fields;
        return Throw(e);
      case Normal(newM) =>
        var row := new MacroRow(newM);
        out := out + [row];
      i := i + 1;
    }
    r := Normal(out);
  }

  /** The second loop: a new tombstone object per deleted row. */
  method DeletionOperations(deleted: seq<MacroRow>) returns (out: seq<MacroRow>)
    ensures |out| == |deleted|
    ensures forall k :: 0 <= k < |deleted| ==> fresh(out[k]) && out[k].fields == Tombstone(deleted[k].fields)
  {
    out := [];
    var j := 0;
    while j < |deleted|
      invariant 0 <= j <= |deleted| && |out| == j
      invariant forall k :: 0 <= k < j ==> fresh(out[k]) && out[k].fields == Tombstone(deleted[k].fields)
    {
      var row := new MacroRow(Tombstone(deleted[j].fields));
      out := out + [row];
      j := j + 1;
    }
  }

  /** The third loop: `m.mid = m.id; delete m.id` on every added row whose
      `id` is truthy. A row object listed twice is promoted once. */
  method PromoteAdded(added: seq<MacroRow>)
    modifies added
    ensures forall k :: 0 <= k < |added| ==> added[k].fields == Promote(old(added[k].fields))
  {
    var j := 0;
    while j < |added|
      invariant 0 <= j <= |added|
      invariant forall k :: 0 <= k < j ==> added[k].fields == Promote(old(added[k].fields))
      invariant forall k :: j <= k < |added| ==>
        added[k].fields == old(added[k].fields) || added[k].fields == Promote(old(added[k].fields))
    {
      var m := added[j];
      PromoteIdempotent(old(m.fields));
      if Truthy(Get(m.fields, "id")) && Get(m.fields, "id") != Int(0) {
        m.fields := m.fields["mid" := m.fields["id"]];
        m.fields := m.fields - {"id"};
      }
      j := j + 1;
    }
  }

  // -----------------------------------------------------------------------
  // The dialog's maps and filters

  /** `respData.macro.map((m)=>({...m, mid: m.id}))`: each macro keeps its
      properties and gains `mid`, a copy of its `id`, so that a change of
      key can be tracked. */
  function TrackKeys(macros: seq<Row>): (r: seq<Row>)
    ensures |r| == |macros|
    ensures forall i :: 0 <= i < |macros| ==>
      && r[i].Keys == macros[i].Keys + {"mid"}
      && r[i]["mid"] == Get(macros[i], "id")
      && forall k :: k in macros[i] && k != "mid" ==> r[i][k] == macros[i][k]
  {
    seq(|macros|, i requires 0 <= i < |macros| => macros[i]["mid" := Get(macros[i], "id")])
  }

  /** `macrosData.map((m)=>({label: m.key_label, value: m.id}))` */
  function KeyOptions(macros: seq<Row>): (r: seq<Row>)
    ensures |r| == |macros|
    ensures forall i :: 0 <= i < |macros| ==>
      r[i] == map["label" := Get(macros[i], "key_label"), "value" := Get(macros[i], "id")]
  {
    seq(|macros|, i requires 0 <= i < |macros| =>
      map["label" := Get(macros[i], "key_label"), "value" := Get(macros[i], "id")])
  }

  /** Each key option offers, as its value, the `mid` its macro carries
      after loading: the option list and the tracked keys line up. */
  lemma KeyOptionsMatchTrackedKeys(macros: seq<Row>)
    ensures forall i :: 0 <= i < |macros| ==>
      KeyOptions(macros)[i]["value"] == TrackKeys(macros)[i]["mid"]
    ensures forall i :: 0 <= i < |macros| ==>
      KeyOptions(TrackKeys(macros))[i]["value"] == TrackKeys(macros)[i]["mid"]
  {
  }

  /** `macros.filter((m)=>Boolean(m.name))`: the macros that have a name,
      in their order; the rest are the backend's empty key slots. */
  function NamedMacros(macros: seq<Row>): (r: seq<Row>)
    ensures |r| <= |macros|
    ensures forall m :: m in r ==> m in macros && Truthy(Get(m, "name"))
    ensures forall m :: m in macros && Truthy(Get(m, "name")) ==> m in r
  {
    if macros == [] then []
    else
      var rest := NamedMacros(macros[1..]);
      assert forall m :: m in macros[1..] ==> m in macros;
      assert forall m :: m in macros ==> m == macros[0] || m in macros[1..];
      if Truthy(Get(macros[0], "name")) then [macros[0]] + rest else rest
  }

  /** A single macro is kept exactly when its name is truthy. */
  lemma NamedMacrosSingle(m: Row)
    ensures NamedMacros([m]) == if Truthy(Get(m, "name")) then [m] else []
  {
    assert [m][1..] == [];
  }

  /** Filtering a concatenation filters each part and keeps them in order:
      together with the one-macro case, the result keeps the named macros
      in their input order, duplicates included. */
  lemma {:induction false} NamedMacrosAppend(a: seq<Row>, b: seq<Row>)
    ensures NamedMacros(a + b) == NamedMacros(a) + NamedMacros(b)
  {
    if a != [] {
      assert (a + b)[0] == a[0];
      assert (a + b)[1..] == a[1..] + b;
      NamedMacrosAppend(a[1..], b);
    } else {
      assert a + b == b;
    }
  }

  /** Filtering keeps the named macros in their relative order: the result
      is what is left after dropping the unnamed ones, so filtering twice
      changes nothing. */
  lemma {:induction false} NamedMacrosIdempotent(macros: seq<Row>)
    ensures NamedMacros(NamedMacros(macros)) == NamedMacros(macros)
  {
    if macros != [] {
      NamedMacrosIdempotent(macros[1..]);
      var rest := NamedMacros(macros[1..]);
      if Truthy(Get(macros[0], "name")) {
        assert ([macros[0]] + rest)[1..] == rest;
      }
    }
  }
}
