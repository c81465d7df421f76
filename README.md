# Macros change sets and the query history, in Dafny

This project models two small pieces of data logic from pgAdmin 4's query
tool front end, and proves what they promise.

- **The macros editor** (`MacrosDialog.jsx`). `getChangedMacros` turns an edit
  session's change set into one flat list of operations for the backend:
  - edited rows become upserts, with `name`, `sql` and `mid` taken from the
    stored macros where the edit lacks them;
  - deleted rows become tombstones `{id, name: null, sql: null}`;
  - added rows have their `id` moved to `mid`, in place.

  `MacrosSchema.validate` is the save gate: truthy keys (`mid`) must have
  distinct string forms, and then names must be distinct ignoring case.
  `MacrosCollection.getNewData` builds a new row from field defaults and
  caller data. The dialog also maps and filters the rows it loads and saves.
- **`HistoryCollection`**: an ordered, observable list of history records.
  `add` appends and `reset` empties, and each hands the whole new list to
  the registered `onChange` listener. The collection's own source is not
  part of this model. The class is modelled from what its test suite
  asserts.

Files:
- `js_values.dfy`, module `JsValues`: the JavaScript semantics the code
  relies on.
  - A row is a `map<string, Value>`, where a `Value` is `Null`, `Undefined`,
    `Int` or `Str`. A missing key is absent from the map, so `'id' in m` and
    `delete m.id` keep their meaning.
  - Also here: truthiness, loose `==`, `toString` on integers (proved to
    round-trip through `==`'s string-to-number conversion), ASCII
    `toLowerCase`, and `Completion`. A `Completion` is a value or a thrown
    `TypeError`.
- `macros_schemas.dfy`, module `MacrosSchemas`: `MacrosCollection.GetNewData`
  and `Validate`, plus the reference predicates `KeysClash` and `NamesClash`
  that `Validate` is proved against.
- `macros_dialog.dfy`, module `MacrosDialog`:
  - the class `MacroRow` (a change-set row object);
  - `GetChangedMacros`, with one method per source loop;
  - `ChangedMacros`, the function on values that `GetChangedMacros` is
    proved against, and its lemmas;
  - the dialog's maps and filters.
- `history.dfy`, module `History`: the class `HistoryCollection`.
  - Ghost state holds the construction list, the log of `add`/`reset`
    operations and the log of listener calls.
  - `Valid()` ties the list to `Replay` of that log.
  - `ReplayMeaning` proves that the list is the initial list (or nothing,
    after a reset) followed by the records added since.

Three behaviours of the code that are easy to misread:
- **Edited rows.** An edited row's own value wins, even when it is falsy,
  because `...m` comes last in the object literal
  (`MacrosDialog.jsx:123`). So an edit that empties `name`, `sql` or `mid`
  sends the empty value, not the stored one. `ChangedEntryWithId` and
  `EditedRowExamples` state this.
- **No matching stored row.** If an edited row has an `id` but no stored row
  matches it, `em.name` (or `em.sql`, `em.mid`) on `undefined` throws. That
  read happens only when the row's own value is falsy
  (`ChangedMacrosThrows`).
- **Keys compared as strings.** Keys are compared by their string forms
  (`MacrosDialog.jsx:95`), so a numeric `5` and a string `'5'` clash
  (`NumberAndStringKeysClash`).

## Model

| member | source | states |
|---|---|---|
| `JsValues.IntToStringRoundTrip` | web/pgadmin/tools/sqleditor/static/js/components/dialogs/MacrosDialog.jsx:95 | the decimal string `toString` gives for an integer key converts back to that integer, so `5 == '5'` |
| `JsValues.IntToStringInjective` | web/pgadmin/tools/sqleditor/static/js/components/dialogs/MacrosDialog.jsx:95 | two different integer keys never print the same, so `toString` merges no numeric keys |
| `JsValues.LowerIgnoresCase` | web/pgadmin/tools/sqleditor/static/js/components/dialogs/MacrosDialog.jsx:96 | names that differ only in ASCII letter case lower-case to the same string |
| `JsValues.LooseEqualsSymmetric` | web/pgadmin/tools/sqleditor/static/js/components/dialogs/MacrosDialog.jsx:122 | the `d.id == m.id` test of the baseline lookup does not depend on operand order |
| `MacrosSchemas.ExistingNames` | web/pgadmin/tools/sqleditor/static/js/components/dialogs/MacrosDialog.jsx:41 | one entry per current macro, its `name` (or `undefined`), in order |
| `MacrosSchemas.MacrosCollection.GetNewData` | web/pgadmin/tools/sqleditor/static/js/components/dialogs/MacrosDialog.jsx:30-46 | the new row has exactly the schema's fields, `data`'s keys and (with a macro list) `name`; `data` wins over defaults, a field without a default is `undefined`, and with a macro list, even an empty one, `name` is the name chosen from the existing names |
| `MacrosSchemas.AllKeys` | web/pgadmin/tools/sqleditor/static/js/components/dialogs/MacrosDialog.jsx:95 | a string is in the key list exactly when some row's truthy `mid` prints as it; rows with a falsy `mid` contribute nothing |
| `MacrosSchemas.DistinctCount` | web/pgadmin/tools/sqleditor/static/js/components/dialogs/MacrosDialog.jsx:97-100 | a list's `Set` is as large as the list exactly when no entry repeats, so the size comparison detects duplicates (both directions) |
| `MacrosSchemas.AllKeysDuplicates` | web/pgadmin/tools/sqleditor/static/js/components/dialogs/MacrosDialog.jsx:95-97 | the key list repeats an entry exactly when two rows have truthy keys with equal string forms |
| `MacrosSchemas.FalsyKeysIgnored` | web/pgadmin/tools/sqleditor/static/js/components/dialogs/MacrosDialog.jsx:95 | rows whose `mid` is falsy yield an empty key list and never clash on keys |
| `MacrosSchemas.ValidateMeaning` | web/pgadmin/tools/sqleditor/static/js/components/dialogs/MacrosDialog.jsx:94-105 | `validate` throws if some truthy name is not a string; otherwise it reports a key clash if any, else a name clash if any, else nothing: the key check has priority |
| `MacrosSchemas.DuplicateKeyBlocks` | web/pgadmin/tools/sqleditor/static/js/components/dialogs/MacrosDialog.jsx:97-99 | two truthy keys with equal string forms block the save with "Key must be unique.", whatever the names |
| `MacrosSchemas.DuplicateNameBlocks` | web/pgadmin/tools/sqleditor/static/js/components/dialogs/MacrosDialog.jsx:100-102 | without a key clash, two names equal ignoring case block the save with "Name must be unique." |
| `MacrosSchemas.UnnamedRowsBlock` | web/pgadmin/tools/sqleditor/static/js/components/dialogs/MacrosDialog.jsx:96-102 | two rows with falsy names both map to null and count as a duplicate name |
| `MacrosSchemas.ValidatePasses` | web/pgadmin/tools/sqleditor/static/js/components/dialogs/MacrosDialog.jsx:97-104 | `validate` returns false, with no error set, exactly when neither keys nor names clash |
| `MacrosSchemas.NumberAndStringKeysClash` | web/pgadmin/tools/sqleditor/static/js/components/dialogs/MacrosDialog.jsx:95-99 | a numeric key and the string of its digits are reported as a duplicate key |
| `MacrosDialog.FindById` | web/pgadmin/tools/sqleditor/static/js/components/dialogs/MacrosDialog.jsx:122 | the result is the first baseline row whose `id` loosely equals the given id, and nothing is found only when no row matches |
| `MacrosDialog.ChangedEntryWithId` | web/pgadmin/tools/sqleditor/static/js/components/dialogs/MacrosDialog.jsx:121-123 | an edited row with an `id` keeps every key and value it has, even falsy ones; only the `name`, `sql` and `mid` it lacks come from the first matching baseline row; it throws exactly when there is no such row and one of the three is falsy |
| `MacrosDialog.ChangedEntryWithoutId` | web/pgadmin/tools/sqleditor/static/js/components/dialogs/MacrosDialog.jsx:120-126 | an edited row without an `id` is emitted as a copy with every key of the row plus `id` set to its `mid` |
| `MacrosDialog.Tombstone` | web/pgadmin/tools/sqleditor/static/js/components/dialogs/MacrosDialog.jsx:129-131 | a deleted row yields exactly the keys `id`, `name` and `sql`, with the row's `id` and two nulls |
| `MacrosDialog.PromoteMeaning` | web/pgadmin/tools/sqleditor/static/js/components/dialogs/MacrosDialog.jsx:132-137 | an added row with a truthy `id` loses `id`, gains `mid` equal to it, and keeps everything else; one with a falsy or missing `id` is unchanged |
| `MacrosDialog.PromoteIdempotent` | web/pgadmin/tools/sqleditor/static/js/components/dialogs/MacrosDialog.jsx:132-137 | promoting an added row a second time changes nothing |
| `MacrosDialog.ChangedMacrosLayout` | web/pgadmin/tools/sqleditor/static/js/components/dialogs/MacrosDialog.jsx:115-140 | the output is the edited rows' operations, then the tombstones, then the promoted added rows, each group in input order, one output per input |
| `MacrosDialog.ChangedMacrosThrows` | web/pgadmin/tools/sqleditor/static/js/components/dialogs/MacrosDialog.jsx:119-128 | the call throws exactly when some edited row with an `id` has no matching baseline row and a falsy `name`, `sql` or `mid` |
| `MacrosDialog.BaselineCompleteReturns` | web/pgadmin/tools/sqleditor/static/js/components/dialogs/MacrosDialog.jsx:121-123 | when every edited row with an `id` has a matching baseline row, the call returns |
| `MacrosDialog.EditedRowExamples` | web/pgadmin/tools/sqleditor/static/js/components/dialogs/MacrosDialog.jsx:121-123 | editing only the name of `{id:1, mid:5, name:'a', sql:'select 1'}` to `'b'` sends `{id:1, mid:5, name:'b', sql:'select 1'}`; setting it to `''` sends `''`, not the stored name |
| `MacrosDialog.DeletedRowExample` | web/pgadmin/tools/sqleditor/static/js/components/dialogs/MacrosDialog.jsx:129-131 | deleting `{id:1}` sends `{id:1, name:null, sql:null}` |
| `MacrosDialog.AddedRowExample` | web/pgadmin/tools/sqleditor/static/js/components/dialogs/MacrosDialog.jsx:132-137 | adding `{id:42, name:'c', sql:'select 2'}` sends `{mid:42, name:'c', sql:'select 2'}` with no `id` |
| `MacrosDialog.GetChangedMacros` | web/pgadmin/tools/sqleditor/static/js/components/dialogs/MacrosDialog.jsx:115-140 | returns or throws as `ChangedMacros` does on the rows' prior values, and returns its operations; the first outputs are new objects, the last are the added row objects themselves, each now promoted; on a throw no row is changed |
| `MacrosDialog.EditedOperations` | web/pgadmin/tools/sqleditor/static/js/components/dialogs/MacrosDialog.jsx:119-128 | one new object per edited row holding its operation, or a throw when any row's operation throws |
| `MacrosDialog.DeletionOperations` | web/pgadmin/tools/sqleditor/static/js/components/dialogs/MacrosDialog.jsx:129-131 | one new tombstone object per deleted row, in order |
| `MacrosDialog.PromoteAdded` | web/pgadmin/tools/sqleditor/static/js/components/dialogs/MacrosDialog.jsx:132-138 | every added row object is promoted in place, even one listed twice |
| `MacrosDialog.TrackKeys` | web/pgadmin/tools/sqleditor/static/js/components/dialogs/MacrosDialog.jsx:160 | each loaded macro keeps its properties and gains `mid` equal to its `id` |
| `MacrosDialog.KeyOptions` | web/pgadmin/tools/sqleditor/static/js/components/dialogs/MacrosDialog.jsx:186-189 | one option per macro, labelled by its `key_label`, valued by its `id` |
| `MacrosDialog.KeyOptionsMatchTrackedKeys` | web/pgadmin/tools/sqleditor/static/js/components/dialogs/MacrosDialog.jsx:160-189 | each key option built from the loaded macros (`macrosData`, the reply after `TrackKeys`) has as its value the `mid` its macro carries |
| `MacrosDialog.NamedMacros` | web/pgadmin/tools/sqleditor/static/js/components/dialogs/MacrosDialog.jsx:202 | the result holds exactly the input macros with a truthy name; the save handler applies the same filter to the backend's reply (line 176) |
| `MacrosDialog.NamedMacrosSingle` | web/pgadmin/tools/sqleditor/static/js/components/dialogs/MacrosDialog.jsx:202 | one macro is kept exactly when its name is truthy |
| `MacrosDialog.NamedMacrosAppend` | web/pgadmin/tools/sqleditor/static/js/components/dialogs/MacrosDialog.jsx:202 | filtering a concatenation is the concatenation of the filtered parts, so the named macros keep their input order and duplicates |
| `MacrosDialog.NamedMacrosIdempotent` | web/pgadmin/tools/sqleditor/static/js/components/dialogs/MacrosDialog.jsx:202 | filtering the named macros again changes nothing |
| `History.HistoryCollection.constructor` | web/regression/javascript/history/history_collection_spec.js:73-79 | a new collection's list is the model it was built from; no listener is registered, no listener has been called, and no change has been made |
| `History.HistoryCollection.Length` | web/regression/javascript/history/history_collection_spec.js:22-31 | `length()` is the number of records: 0 for an empty model, 1 for the one-record model |
| `History.HistoryCollection.Add` | web/regression/javascript/history/history_collection_spec.js:34-51 | the list becomes the old list plus the record, and the listener is called once with the whole new list |
| `History.HistoryCollection.Reset` | web/regression/javascript/history/history_collection_spec.js:54-66 | the list becomes empty and the listener is called once with `[]` |
| `History.HistoryCollection.OnChange` | web/regression/javascript/history/history_collection_spec.js:17-19 | the handler becomes the listener, replacing any earlier one; the list is untouched |
| `History.ReplayMeaning` | web/regression/javascript/history/history_collection_spec.js:34-79 | after any sequence of `add` and `reset`, the list is the initial model (or nothing, after a reset) followed by every record added since the last reset, in insertion order |
| `History.RecordsAreTheAdds` | web/regression/javascript/history/history_collection_spec.js:34-47 | the list of added records holds every record passed to `add`, and nothing that was not added |

## Left out

- The React components, styling, HTTP `get`/`put`, promises and `useEffect` of
  the dialog are not modelled. Neither are `PgReactTableStyled.jsx` and
  `Processes.jsx`: they are presentation only.
- `getRandomName` is not part of this model. `GetNewData` takes it as a
  function parameter, and its result is opaque.
- The schema base class, which supplies `fields` and `defaults`, is not part
  of this model. `MacrosCollection` takes its defaults as a constructor
  argument, and its fields are the three base fields.
- The implementation file of `HistoryCollection` is not part of this model.
  The class follows its test suite. The list is a value, so aliasing between
  the caller's initial array and the collection's list is not captured. The
  pending "doesn't sort" test asserts nothing and is not modelled.
- Listener callbacks are opaque handles. A call is recorded in a ghost log;
  what the callback does is not modelled.
- `GetChangedMacros` takes the three groups of `changeData.macro` as lists.
  The source's `|| []`, which turns an absent group into an empty one, is
  left to the caller.
- JavaScript numbers are modelled as integers only.
  - `toString` of numbers of 10^21 and more, which uses exponent notation, is
    not modelled.
  - Loose `==` between a number and a string parses only an optional sign
    and decimal digits (the empty string is 0). Whitespace, fractions,
    exponents and hex/octal/binary prefixes count as NaN here.
- `toLowerCase` is modelled on ASCII letters only; Unicode case mapping is
  left out.
- Values other than null, undefined, integers and strings (booleans, arrays,
  nested objects) are not modelled as row properties.
