/** The query history's `HistoryCollection`: an ordered list of history
    records that `add` appends to and `reset` empties, each time handing
    the whole list to the one registered change listener. Listeners are
    arbitrary callbacks; here a listener is an opaque handle, and each call
    of it is recorded in a log of notifications. */
module History {
  import opened JsValues

  /** Identifies a callback passed to `onChange`. */
  type ListenerId = nat

  /** One call of a listener, with the list it was given. */
  datatype Notification<T> = Notification(listener: ListenerId, list: seq<T>)

  /** A change made to the collection. */
  datatype Op<T> = AddOp(record: T) | ResetOp

  /** The list after applying `ops`, in order, to `initial`. */
  function Replay<T>(initial: seq<T>, ops: seq<Op<T>>): seq<T>
  {
    if ops == [] then initial
    else
      var before := Replay(initial, ops[..|ops| - 1]);
      match ops[|ops| - 1]
      case AddOp(x) => before + [x]
      case ResetOp => []
  }

  /** The records added by `ops`, in order. */
  function Records<T>(ops: seq<Op<T>>): seq<T>
  {
    if ops == [] then []
    else match ops[0]
      case AddOp(x) => [x] + Records(ops[1..])
      case ResetOp => Records(ops[1..])
  }

  /** Every added record appears among the records, and every record was
      added by some `add`: a reset drops no record from this list and
      nothing else enters it. */
  lemma {:induction false} RecordsAreTheAdds<T>(ops: seq<Op<T>>)
    ensures |Records(ops)| <= |ops|
    ensures forall i :: 0 <= i < |ops| && ops[i].AddOp? ==> ops[i].record in Records(ops)
    ensures forall j :: 0 <= j < |Records(ops)| ==> AddOp(Records(ops)[j]) in ops
  {
    if ops != [] {
      RecordsAreTheAdds(ops[1..]);
      assert forall i :: 0 < i < |ops| ==> ops[i] == ops[1..][i - 1];
      assert forall o :: o in ops[1..] ==> o in ops;
    }
  }

  /** The position just after the last reset in `ops`, or 0 if none. */
  function SinceLastReset<T>(ops: seq<Op<T>>): (k: nat)
    ensures k <= |ops|
    ensures forall i :: k <= i < |ops| ==> ops[i].AddOp?
    ensures k > 0 ==> ops[k - 1] == ResetOp
  {
    if ops == [] then 0
    else if ops[|ops| - 1] == ResetOp then |ops|
    else SinceLastReset(ops[..|ops| - 1])
  }

  lemma {:induction false} RecordsAppend<T>(ops: seq<Op<T>>, op: Op<T>)
    ensures Records(ops + [op]) == Records(ops) + (if op.AddOp? then [op.record] else [])
  {
    if ops != [] {
      assert (ops + [op])[1..] == ops[1..] + [op];
      RecordsAppend(ops[1..], op);
    } else {
      assert ([op])[1..] == [];
    }
  }

  /** The list is the initial list followed by everything added since, if
      there has been no reset, and otherwise everything added since the last
      reset: order is insertion order, and nothing is sorted or dropped. */
  lemma {:induction false} ReplayMeaning<T>(initial: seq<T>, ops: seq<Op<T>>)
    ensures Replay(initial, ops) ==
      (if SinceLastReset(ops) == 0 then initial else []) + Records(ops[SinceLastReset(ops)..])
  {
    if ops != [] {
      var prefix, last := ops[..|ops| - 1], ops[|ops| - 1];
      assert ops == prefix + [last];
      ReplayMeaning(initial, prefix);
      if last.AddOp? {
        var k := SinceLastReset(prefix);
        assert ops[k..] == prefix[k..] + [last];
        RecordsAppend(prefix[k..], last);
      } else {
        assert ops[|ops|..] == [];
      }
    }
  }

  class HistoryCollection<T> {
    var historyList: seq<T>
    var listener: Option<ListenerId>
    /** The list the collection was built from. */
    ghost const initial: seq<T>
    /** Every `add` and `reset` so far, oldest first. */
    ghost var ops: seq<Op<T>>
    /** Every listener call so far, oldest first. */
    ghost var notified: seq<Notification<T>>

    /** The list is what the changes so far made of the initial list. */
    ghost predicate Valid()
      reads this
    {
      historyList == Replay(initial, ops)
    }

    constructor (historyModel: seq<T>)
      ensures Valid()
      ensures historyList == historyModel && initial == historyModel && ops == []
      ensures listener == None && notified == []
    {
      historyList := historyModel;
      listener := None;
      initial := historyModel;
      ops := [];
      notified := [];
    }

    /** `length()`: the number of records. */
    method Length() returns (n: nat)
      ensures n == |historyList|
    {
      n := |historyList|;
    }

    /** `onChange(handler)`: the handler replaces any earlier listener. */
    method OnChange(handler: ListenerId)
      modifies this
      ensures listener == Some(handler)
      ensures historyList == old(historyList) && ops == old(ops) && notified == old(notified)
    {
      listener := Some(handler);
    }

    /** The log entry a change produces: one call of the current listener
        with the new list, or nothing when no listener is registered. */
    ghost function Notify(list: seq<T>): seq<Notification<T>>
      reads this
    {
      match listener
      case Some(l) => [Notification(l, list)]
      case None => []
    }

    /** `add(record)`: appends, then notifies with the whole new list. */
    method Add(record: T)
      requires Valid()
      modifies this
      ensures Valid()
      ensures historyList == old(historyList) + [record]
      ensures ops == old(ops) + [AddOp(record)]
      ensures listener == old(listener)
      ensures notified == old(notified) + Notify(historyList)
    {
      historyList := historyList + [record];
      ops := ops + [AddOp(record)];
      assert ops[..|ops| - 1] == old(ops);
      notified := notified + Notify(historyList);
    }

    /** `reset()`: empties the list, then notifies with the empty list. */
    method Reset()
      requires Valid()
      modifies this
      ensures Valid()
      ensures historyList == []
      ensures ops == old(ops) + [ResetOp]
      ensures listener == old(listener)
      ensures notified == old(notified) + Notify([])
    {
      historyList := [];
      ops := ops + [ResetOp];
      notified := notified + Notify([]);
    }
  }

  /** The collection's behaviour on the test suite's scenario: one initial
      record, a spy registered as listener, then `add` and `reset`. */
  method HistoryScenario(first: map<string, string>, second: map<string, string>, spy: ListenerId)
  {
    var history := new HistoryCollection([first]);
    history.OnChange(spy);
    assert history.historyList == [first];
    var n := history.Length();
    assert n == 1;

    history.Add(second);
    assert history.historyList == [first, second];
    assert history.notified == [Notification(spy, [first, second])];

    var other := spy + 1;
    history.OnChange(other);
    history.Reset();
    n := history.Length();
    assert history.historyList == [] && n == 0;
    assert history.notified[|history.notified| - 1] == Notification(other, []);

    var empty := new HistoryCollection<map<string, string>>([]);
    n := empty.Length();
    assert n == 0;
  }
}
