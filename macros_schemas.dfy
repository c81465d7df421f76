/** The two form schemas of the macros editor: the row schema
    (`MacrosCollection`, which builds a new row) and the dialog schema
    (`MacrosSchema`, whose `validate` is the save gate: keys must be unique,
    then names must be unique ignoring case). */
module MacrosSchemas {
  import opened JsValues

  /** The ids of the row schema's fields, in declaration order. */
  const BaseFieldIds: seq<string> := ["mid", "name", "sql"]

  /** `existingNames`: the `name` of every current macro, in order. */
  function ExistingNames(current: seq<Row>): (names: seq<Value>)
    ensures |names| == |current|
    ensures forall i :: 0 <= i < |current| ==> names[i] == Get(current[i], "name")
  {
    seq(|current|, i requires 0 <= i < |current| => Get(current[i], "name"))
  }

  /** The row schema. Its field list and its defaults come from the schema
      base class; `getRandomName` is passed to `GetNewData` as a function. */
  class MacrosCollection {
    const fieldIds: seq<string>
    const defaults: map<string, Value>

    constructor (defaults: map<string, Value>)
      ensures fieldIds == BaseFieldIds && this.defaults == defaults
    {
      fieldIds := BaseFieldIds;
      this.defaults := defaults;
    }

    /** A new row: every field set to its default (`undefined` when it has
        none), overlaid with `data`; when there is a list of current macros
        (an empty list counts), `name` is replaced by a name chosen from the
        existing ones. */
    method GetNewData(currentMacros: Option<seq<Row>>, data: Row,
                      getRandomName: seq<Value> -> string)
      returns (newRow: Row)
      ensures newRow.Keys == (set f | f in fieldIds) + data.Keys
                             + (if currentMacros.Some? then {"name"} else {})
      ensures forall k :: k in data && (currentMacros.None? || k != "name") ==>
                newRow[k] == data[k]
      ensures forall k :: k in fieldIds && k !in data && (currentMacros.None? || k != "name") ==>
                newRow[k] == Get(defaults, k)
      ensures currentMacros.Some? ==>
                newRow["name"] == Str(getRandomName(ExistingNames(currentMacros.value)))
    {
      newRow := map[];
      var i := 0;
      while i < |fieldIds|
        invariant 0 <= i <= |fieldIds|
        invariant newRow.Keys == set f | f in fieldIds[..i]
        invariant forall k :: k in newRow ==> newRow[k] == Get(defaults, k)
      {
        newRow := newRow[fieldIds[i] := Get(defaults, fieldIds[i])];
        i := i + 1;
      }
      assert fieldIds[..i] == fieldIds;
      newRow := newRow + data;
      if currentMacros.Some? {
        var existingNames := ExistingNames(currentMacros.value);
        var newName := getRandomName(existingNames);
        newRow := newRow["name" := Str(newName)];
      }
    }
  }

  // -----------------------------------------------------------------------
  // validate

  /** The outcome of `validate` when it returns: which error it set. */
  datatype SaveGate = Unique | KeyNotUnique | NameNotUnique
  {
    /** What `validate` returns: true blocks the save. */
    predicate Blocks()
    {
      !Unique?
    }

    /** The message passed to `setError`, if any. */
    function ErrorMessage(): Option<string>
    {
      match this
      case Unique => None
      case KeyNotUnique => Some("Key must be unique.")
      case NameNotUnique => Some("Name must be unique.")
    }
  }

  /** `m.mid ? m.mid.toString() : null` */
  function KeyOf(m: Row): Option<string>
  {
    if Truthy(Get(m, "mid")) then Some(ToString(Get(m, "mid"))) else None
  }

  /** `allKeys`: the string form of every truthy `mid`, in row order. */
  function AllKeys(rows: seq<Row>): (keys: seq<string>)
    ensures |keys| <= |rows|
    ensures forall x :: x in keys <==> exists i :: 0 <= i < |rows| && KeyOf(rows[i]) == Some(x)
  {
    if rows == [] then []
    else
      var rest := AllKeys(rows[1..]);
      var keys := match KeyOf(rows[0]) case Some(k) => [k] + rest case None => rest;
      assert forall i :: 0 < i < |rows| ==> rows[i] == rows[1..][i - 1];
      keys
  }

  /** `m.name ? m.name.toLowerCase() : null`; a truthy name that is not a
      string has no `toLowerCase` and the call throws. */
  function NameOf(m: Row): Completion<Option<string>>
  {
    var v := Get(m, "name");
    if !Truthy(v) then Normal(None)
    else match v
      case Str(s) => Normal(Some(Lower(s)))
      case _ => Throw(TypeError)
  }

  predicate NameThrows(rows: seq<Row>)
  {
    exists i :: 0 <= i < |rows| && NameOf(rows[i]).Throw?
  }

  /** `allNames`: one entry per row, `None` standing for `null`. */
  function AllNames(rows: seq<Row>): (r: Completion<seq<Option<string>>>)
  {
    if NameThrows(rows) then Throw(TypeError)
    else Normal(seq(|rows|, i requires 0 <= i < |rows| => NameOf(rows[i]).value))
  }

  /** `validate(state, setError)` over `state.macro`: both lists are built
      before either is checked, then a repeated key wins over a repeated
      name, each detected by comparing the list's length with the size of
      its `Set`. */
  function Validate(rows: seq<Row>): Completion<SaveGate>
  {
    var allKeys := AllKeys(rows);
    match AllNames(rows)
    case Throw(e) => Throw(e)
    case Normal(allNames) =>
      if |allKeys| != |set k | k in allKeys| then Normal(KeyNotUnique)
      else if |allNames| != |set n | n in allNames| then Normal(NameNotUnique)
      else Normal(Unique)
  }

  // -----------------------------------------------------------------------
  // What validate means

  predicate HasDuplicates<T(==)>(s: seq<T>)
  {
    exists i, j :: 0 <= i < j < |s| && s[i] == s[j]
  }

  /** Two rows whose truthy keys print the same. */
  predicate KeysClash(rows: seq<Row>)
  {
    exists i, j :: 0 <= i < j < |rows| && KeyOf(rows[i]).Some? && KeyOf(rows[i]) == KeyOf(rows[j])
  }

  /** Two rows whose names agree ignoring case, or are both falsy. */
  predicate NamesClash(rows: seq<Row>)
  {
    exists i, j :: 0 <= i < j < |rows| && NameOf(rows[i]) == NameOf(rows[j])
  }

  /** A list has as many distinct elements as entries exactly when no entry
      is repeated: the `Set`-size test of `validate` detects duplicates. */
  lemma {:induction false} DistinctCount<T>(s: seq<T>)
    ensures |set x | x in s| <= |s|
    ensures |set x | x in s| == |s| <==> !HasDuplicates(s)
  {
    if s != [] {
      var t := s[1..];
      DistinctCount(t);
      assert s == [s[0]] + t;
      assert (set x | x in s) == {s[0]} + (set x | x in t);
      if s[0] in t {
        assert (set x | x in s) == (set x | x in t);
        var j :| 0 <= j < |t| && t[j] == s[0];
        assert s[0] == s[j + 1];
      } else {
        assert |set x | x in s| == |set x | x in t| + 1;
        if HasDuplicates(s) {
          var i, j :| 0 <= i < j < |s| && s[i] == s[j];
          assert i > 0 && t[i - 1] == t[j - 1];
        }
        if HasDuplicates(t) {
          var i, j :| 0 <= i < j < |t| && t[i] == t[j];
          assert s[i + 1] == s[j + 1];
        }
      }
    }
  }

  /** A list headed by `x` repeats an entry when `x` recurs or the tail
      repeats one. */
  lemma DuplicatesCons<T>(x: T, s: seq<T>)
    ensures HasDuplicates([x] + s) <==> x in s || HasDuplicates(s)
  {
    var xs := [x] + s;
    if x in s {
      var j :| 0 <= j < |s| && s[j] == x;
      assert xs[0] == xs[j + 1];
    }
    if HasDuplicates(s) {
      var i, j :| 0 <= i < j < |s| && s[i] == s[j];
      assert xs[i + 1] == xs[j + 1];
    }
    if HasDuplicates(xs) {
      var i, j :| 0 <= i < j < |xs| && xs[i] == xs[j];
      if i == 0 {
        assert s[j - 1] == x;
      } else {
        assert s[i - 1] == s[j - 1];
      }
    }
  }

  /** Rows clash on keys when the first row's key recurs later or the
      remaining rows clash. */
  lemma KeysClashCons(rows: seq<Row>)
    requires rows != []
    ensures KeysClash(rows) <==>
      (KeyOf(rows[0]).Some? && KeyOf(rows[0]).value in AllKeys(rows[1..])) || KeysClash(rows[1..])
  {
    var t := rows[1..];
    if KeyOf(rows[0]).Some? && KeyOf(rows[0]).value in AllKeys(t) {
      var j :| 0 <= j < |t| && KeyOf(t[j]) == KeyOf(rows[0]);
      assert KeyOf(rows[j + 1]) == KeyOf(rows[0]);
    }
    if KeysClash(t) {
      var i, j :| 0 <= i < j < |t| && KeyOf(t[i]).Some? && KeyOf(t[i]) == KeyOf(t[j]);
      assert KeyOf(rows[i + 1]) == KeyOf(rows[j + 1]);
    }
    if KeysClash(rows) {
      var i, j :| 0 <= i < j < |rows| && KeyOf(rows[i]).Some? && KeyOf(rows[i]) == KeyOf(rows[j]);
      if i == 0 {
        assert KeyOf(t[j - 1]) == KeyOf(rows[0]);
      } else {
        assert KeyOf(t[i - 1]) == KeyOf(t[j - 1]);
      }
    }
  }

  /** The list of keys repeats an entry exactly when two rows' keys clash. */
  lemma {:induction false} AllKeysDuplicates(rows: seq<Row>)
    ensures HasDuplicates(AllKeys(rows)) <==> KeysClash(rows)
  {
    if rows != [] {
      var t := rows[1..];
      AllKeysDuplicates(t);
      KeysClashCons(rows);
      match KeyOf(rows[0])
      case None =>
        assert AllKeys(rows) == AllKeys(t);
      case Some(k) =>
        assert AllKeys(rows) == [k] + AllKeys(t);
        DuplicatesCons(k, AllKeys(t));
    }
  }

  /** `validate` in terms of the rows: it throws when some truthy name is not
      a string; otherwise it reports a key clash if there is one, else a name
      clash if there is one, else nothing. */
  lemma ValidateMeaning(rows: seq<Row>)
    ensures Validate(rows) ==
      if NameThrows(rows) then Throw(TypeError)
      else if KeysClash(rows) then Normal(KeyNotUnique)
      else if NamesClash(rows) then Normal(NameNotUnique)
      else Normal(Unique)
  {
    var allKeys := AllKeys(rows);
    DistinctCount(allKeys);
    AllKeysDuplicates(rows);
    if !NameThrows(rows) {
      var allNames := AllNames(rows).value;
      DistinctCount(allNames);
      assert HasDuplicates(allNames) <==> NamesClash(rows) by {
        if HasDuplicates(allNames) {
          var i, j :| 0 <= i < j < |allNames| && allNames[i] == allNames[j];
          assert NameOf(rows[i]) == NameOf(rows[j]);
        }
        if NamesClash(rows) {
          var i, j :| 0 <= i < j < |rows| && NameOf(rows[i]) == NameOf(rows[j]);
          assert allNames[i] == allNames[j];
        }
      }
    }
  }

  /** Two rows with truthy keys of equal string form block the save with
      the key message, whatever the names are (as long as none throws). */
  lemma DuplicateKeyBlocks(rows: seq<Row>, i: nat, j: nat)
    requires i < j < |rows|
    requires Truthy(Get(rows[i], "mid")) && Truthy(Get(rows[j], "mid"))
    requires ToString(Get(rows[i], "mid")) == ToString(Get(rows[j], "mid"))
    requires !NameThrows(rows)
    ensures Validate(rows) == Normal(KeyNotUnique)
    ensures Validate(rows).value.ErrorMessage() == Some("Key must be unique.")
  {
    ValidateMeaning(rows);
    assert KeyOf(rows[i]) == KeyOf(rows[j]);
  }

  /** Rows with no truthy key never clash on keys: the key list is empty. */
  lemma {:induction false} FalsyKeysIgnored(rows: seq<Row>)
    requires forall i :: 0 <= i < |rows| ==> !Truthy(Get(rows[i], "mid"))
    ensures AllKeys(rows) == []
    ensures !KeysClash(rows)
  {
    if rows != [] {
      assert !Truthy(Get(rows[0], "mid"));
      FalsyKeysIgnored(rows[1..]);
    }
  }

  /** Without a key clash, two rows whose names are equal ignoring case
      block the save with the name message. */
  lemma DuplicateNameBlocks(rows: seq<Row>, i: nat, j: nat, a: string, b: string)
    requires i < j < |rows|
    requires Get(rows[i], "name") == Str(a) && Get(rows[j], "name") == Str(b)
    requires a != "" && b != "" && Lower(a) == Lower(b)
    requires !KeysClash(rows) && !NameThrows(rows)
    ensures Validate(rows) == Normal(NameNotUnique)
    ensures Validate(rows).value.ErrorMessage() == Some("Name must be unique.")
  {
    ValidateMeaning(rows);
    assert NameOf(rows[i]) == NameOf(rows[j]);
  }

  /** Falsy names all become `null`, so two unnamed rows count as a
      duplicate name. */
  lemma UnnamedRowsBlock(rows: seq<Row>, i: nat, j: nat)
    requires i < j < |rows|
    requires !Truthy(Get(rows[i], "name")) && !Truthy(Get(rows[j], "name"))
    requires !KeysClash(rows) && !NameThrows(rows)
    ensures Validate(rows) == Normal(NameNotUnique)
  {
    ValidateMeaning(rows);
    assert NameOf(rows[i]) == NameOf(rows[j]);
  }

  /** `validate` returns false, and sets no error, exactly when neither
      keys nor names repeat. */
  lemma ValidatePasses(rows: seq<Row>)
    requires !NameThrows(rows)
    ensures Validate(rows).Normal?
    ensures !Validate(rows).value.Blocks() <==> !KeysClash(rows) && !NamesClash(rows)
    ensures !Validate(rows).value.Blocks() ==> Validate(rows).value.ErrorMessage() == None
  {
    ValidateMeaning(rows);
  }

  /** A number key and the string of its digits are the same key. */
  lemma NumberAndStringKeysClash(n: int, a: string, b: string)
    requires n != 0 && a != "" && b != "" && Lower(a) != Lower(b)
    ensures Validate([map["mid" := Int(n), "name" := Str(a)],
                      map["mid" := Str(IntToString(n)), "name" := Str(b)]]) == Normal(KeyNotUnique)
  {
    var rows := [map["mid" := Int(n), "name" := Str(a)],
                 map["mid" := Str(IntToString(n)), "name" := Str(b)]];
    NatToStringDigits(if n < 0 then -n else n);
    assert IntToString(n) != "";
    DuplicateKeyBlocks(rows, 0, 1);
  }
}
