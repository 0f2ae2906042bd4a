/**
 * The answering side of trie sync in src/sync.mjs: `put` stores a batch of
 * pushed leaves, `compare` answers a level comparison, `receive` writes a
 * handler's response or closes the stream, and `handleLevels` /
 * `handleLeaves` are the two protocol handlers built from them.
 *
 * The trie is the records it holds and its open checkpoints. The
 * collaborators whose code is not part of this model (the record decoder,
 * `store.add`'s validation and `store.compare`) are the functions of a
 * `Store`.
 */
module Responder {
  import opened Wrappers
  import Hex
  import opened Descriptors
  import opened Messages
  import Initiator

  /** The local trie: the records stored in it, and how many checkpoints are open. */
  class Trie {
    var records: seq<Message>
    var checkpoints: nat

    /** `trie.checkpoint()`. */
    method Checkpoint()
      modifies this
      ensures records == old(records)
      ensures checkpoints == old(checkpoints) + 1
    {
      checkpoints := checkpoints + 1;
    }

    /** `trie.commit()`: closes the innermost checkpoint and keeps what was written since. */
    method Commit()
      requires checkpoints > 0
      modifies this
      ensures records == old(records)
      ensures checkpoints == old(checkpoints) - 1
    {
      checkpoints := checkpoints - 1;
    }
  }

  /**
   * The collaborators: cbor `decode` of a leaf value into a message; whether
   * `store.add` accepts a message into a trie holding the given records;
   * and `store.compare`, from the local records and the peer's descriptors
   * to the `missing`, `mismatch` and `match` lists.
   */
  datatype Store = Store(
    decode: seq<Hex.byte> -> Option<Message>,
    admit: (seq<Message>, Message) -> bool,
    compare: (seq<Message>, seq<Descriptor>) -> (seq<Descriptor>, seq<Descriptor>, seq<Descriptor>))

  /**
   * `node.value()`: the value bytes of a decoded node. A descriptor without
   * a node object, or a branch without a value, has none, and reading it
   * throws.
   */
  function NodeValue(d: Descriptor): (r: Result<seq<Hex.byte>, SyncError>)
    ensures r.Success? <==> d.node.Node? && (d.node.node.LeafNode? || d.node.node.branchValue.Some?)
  {
    match d.node
    case Node(LeafNode(v)) => Success(v)
    case Node(BranchNode(Some(v))) => Success(v)
    case _ => Failure(MissingValue)
  }

  /** `decode(node.value())`: the record a descriptor carries. */
  function RecordOf(st: Store, d: Descriptor): (r: Result<Message, SyncError>)
    ensures r.Success? <==> NodeValue(d).Success? && st.decode(NodeValue(d).value).Some?
    ensures r.Success? ==> st.decode(NodeValue(d).value) == Some(r.value)
    ensures r.Failure? ==> r.error == MissingValue || r.error == MalformedRecord
  {
    match NodeValue(d)
    case Failure(e) => Failure(e)
    case Success(v) =>
      match st.decode(v)
      case None => Failure(MalformedRecord)
      case Some(m) => Success(m)
  }

  /**
   * What `put`'s loop leaves in a trie that held `records`, and how it ends:
   * each record is offered to `store.add` in order and kept when accepted;
   * a refusal is caught and the loop goes on, but a record that cannot be
   * read aborts the rest of the batch.
   */
  function Applied(st: Store, records: seq<Message>, ds: seq<Descriptor>): (r: (seq<Message>, Outcome<SyncError>))
    ensures r.1.Fail? ==> r.1.error == MissingValue || r.1.error == MalformedRecord
    decreases |ds|
  {
    if ds == [] then (records, Pass)
    else match RecordOf(st, ds[0])
      case Failure(e) => (records, Fail(e))
      case Success(m) => Applied(st, if st.admit(records, m) then records + [m] else records, ds[1..])
  }

  /** `put(trie, message)` as a value: `deserialize` first, then the loop. */
  function PutResult(st: Store, c: NodeCodec, records: seq<Message>, message: Option<seq<Descriptor>>): (r: (seq<Message>, Outcome<SyncError>))
    ensures message.None? ==> r == (records, Fail(NotIterable))
    ensures r.1.Fail? ==> r.1.error != Rejected
  {
    match DeserializeAll(c, message)
    case Failure(e) => (records, Fail(e))
    case Success(ds) => Applied(st, records, ds)
  }

  /** `store.add(trie, value, …)`: stores `m` if the store accepts it, and throws otherwise. */
  method Add(trie: Trie, st: Store, m: Message) returns (o: Outcome<SyncError>)
    modifies trie
    ensures o.Pass? <==> st.admit(old(trie.records), m)
    ensures o.Fail? ==> o.error == Rejected
    ensures trie.records == if o.Pass? then old(trie.records) + [m] else old(trie.records)
    ensures trie.checkpoints == old(trie.checkpoints)
  {
    if st.admit(trie.records, m) {
      trie.records := trie.records + [m];
      return Pass;
    }
    return Fail(Rejected);
  }

  /** An array holding the incoming collection, or `null` for `undefined`. */
  function Contents(a: array?<Descriptor>): Option<seq<Descriptor>>
    reads a
  {
    if a == null then None else Some(a[..])
  }

  /**
   * `put(trie, message)`: `message` is deserialized where it stands, then
   * every record in it is offered to the store in order.
   */
  method Put(trie: Trie, st: Store, c: NodeCodec, message: array?<Descriptor>) returns (o: Outcome<SyncError>)
    modifies trie, message
    ensures (trie.records, o) == PutResult(st, c, old(trie.records), old(Contents(message)))
    ensures trie.checkpoints == old(trie.checkpoints)
    ensures message != null ==> message[..] == DeserializeInPlace(c, old(message[..])).0
  {
    var d := Deserialize(c, message);
    if d.Fail? {
      return d;
    }
    ghost var ds := message[..];
    ghost var start := trie.records;
    assert DeserializeAll(c, old(Contents(message))) == Success(ds);
    assert ds[0..] == ds;
    var i := 0;
    while i < message.Length
      invariant 0 <= i <= message.Length
      invariant message[..] == ds
      invariant Applied(st, start, ds) == Applied(st, trie.records, ds[i..])
      invariant trie.checkpoints == old(trie.checkpoints)
    {
      assert ds[i..][0] == message[i] && ds[i..][1..] == ds[i + 1..];
      var value := NodeValue(message[i]);
      if value.Failure? {
        return Fail(value.error);
      }
      var record := st.decode(value.value);
      if record.None? {
        return Fail(MalformedRecord);
      }
      var added := Add(trie, st, record.value);
      // a refused record is logged and skipped
      i := i + 1;
    }
    assert ds[i..] == [];
    return Pass;
  }

  /** The three lists `compare` answers with, or what it threw. */
  function CompareResult(st: Store, c: NodeCodec, records: seq<Message>, message: Option<seq<Descriptor>>): (r: Result<Initiator.Comparison, SyncError>)
    ensures message.None? ==> r == Failure(NotIterable)
    ensures r.Success? ==> message.Some? && r.value.missing.Some? && r.value.mismatch.Some? && r.value.matched.Some?
  {
    match DeserializeAll(c, message)
    case Failure(e) => Failure(e)
    case Success(ds) =>
      var (missing, mismatch, matched) := st.compare(records, ds);
      match SerializeAll(c, missing)
      case Failure(e) => Failure(e)
      case Success(m1) =>
        match SerializeAll(c, mismatch)
        case Failure(e) => Failure(e)
        case Success(m2) =>
          match SerializeAll(c, matched)
          case Failure(e) => Failure(e)
          case Success(m3) => Success(Initiator.Comparison(Some(m1), Some(m2), Some(m3)))
  }

  /**
   * `compare(trie, message)`: deserialize the peer's descriptors in place,
   * ask the store, and serialize the three lists it returns, in the order
   * `missing`, `mismatch`, `match`.
   */
  method Compare(trie: Trie, st: Store, c: NodeCodec, message: array?<Descriptor>) returns (r: Result<Initiator.Comparison, SyncError>)
    modifies message
    ensures r == CompareResult(st, c, trie.records, old(Contents(message)))
    ensures message != null ==> message[..] == DeserializeInPlace(c, old(message[..])).0
  {
    var d := Deserialize(c, message);
    if d.Fail? {
      return Failure(d.error);
    }
    assert DeserializeAll(c, old(Contents(message))) == Success(message[..]);
    var (missing, mismatch, matched) := st.compare(trie.records, message[..]);
    var m1 := NewArray(missing);
    var s := Serialize(c, m1);
    if s.Fail? {
      return Failure(s.error);
    }
    var m2 := NewArray(mismatch);
    s := Serialize(c, m2);
    if s.Fail? {
      return Failure(s.error);
    }
    var m3 := NewArray(matched);
    s := Serialize(c, m3);
    if s.Fail? {
      return Failure(s.error);
    }
    return Success(Initiator.Comparison(Some(m1[..]), Some(m2[..]), Some(m3[..])));
  }

  /** What `receive` does with the stream once the handler has settled. */
  datatype Effect =
    | Wrote(response: Initiator.Comparison)   // `toWire(response, stream.sink)`
    | Closed                                   // `stream.close()`, nothing written
    | Failed(error: SyncError)                 // the handler threw: nothing written, stream left open

  /**
   * `receive(handler)` after the handler returned `response` (a value, or
   * nothing) or threw.
   */
  function Receive(response: Result<Option<Initiator.Comparison>, SyncError>): (e: Effect)
    ensures e.Wrote? <==> response.Success? && response.value.Some?
    ensures e.Wrote? ==> e.response == response.value.value
    ensures e.Closed? <==> response == Success(None)
    ensures e.Failed? <==> response.Failure?
  {
    match response
    case Failure(err) => Failed(err)
    case Success(None) => Closed
    case Success(Some(cmp)) => Wrote(cmp)
  }

  /** `handleLevels(trie)` on an incoming message: the comparison is always written back, unless it threw. */
  method HandleLevels(trie: Trie, st: Store, c: NodeCodec, message: array?<Descriptor>) returns (e: Effect)
    modifies message
    ensures var r := CompareResult(st, c, trie.records, old(Contents(message)));
      && (r.Success? ==> e == Wrote(r.value))
      && (r.Failure? ==> e == Failed(r.error))
  {
    var r := Compare(trie, st, c, message);
    if r.Failure? {
      return Receive(Failure(r.error));
    }
    return Receive(Success(Some(r.value)));
  }

  /**
   * `handleLeaves(trie)` on an incoming message: `put` between a checkpoint
   * and a commit. The handler returns nothing, so the stream is closed and
   * never written to; if `put` throws, the commit is skipped and the
   * checkpoint stays open.
   */
  method HandleLeaves(trie: Trie, st: Store, c: NodeCodec, message: array?<Descriptor>) returns (e: Effect)
    modifies trie, message
    ensures var (records, o) := PutResult(st, c, old(trie.records), old(Contents(message)));
      && trie.records == records
      && (o.Pass? ==> e == Closed && trie.checkpoints == old(trie.checkpoints))
      && (o.Fail? ==> e == Failed(o.error) && trie.checkpoints == old(trie.checkpoints) + 1)
  {
    trie.Checkpoint();
    var o := Put(trie, st, c, message);
    if o.Fail? {
      return Receive(Failure(o.error));
    }
    trie.Commit();
    return Receive(Success(None));
  }

  // Properties of `put`

  /** `put` only ever adds records: what the trie held before is still there, first. */
  lemma {:induction false} AppliedExtends(st: Store, records: seq<Message>, ds: seq<Descriptor>)
    ensures records <= Applied(st, records, ds).0
    ensures |Applied(st, records, ds).0| <= |records| + |ds|
    decreases |ds|
  {
    if ds != [] && RecordOf(st, ds[0]).Success? {
      var m := RecordOf(st, ds[0]).value;
      AppliedExtends(st, if st.admit(records, m) then records + [m] else records, ds[1..]);
    }
  }

  /**
   * `put` returns normally exactly when every descriptor of the batch
   * carries a readable record, whatever the store refuses; otherwise it
   * throws what the first unreadable one threw.
   */
  lemma {:induction false} AppliedPassIff(st: Store, records: seq<Message>, ds: seq<Descriptor>)
    ensures Applied(st, records, ds).1.Pass? <==> forall i :: 0 <= i < |ds| ==> RecordOf(st, ds[i]).Success?
    ensures Applied(st, records, ds).1.Fail? ==>
      exists i :: 0 <= i < |ds| && RecordOf(st, ds[i]) == Failure(Applied(st, records, ds).1.error)
        && forall j :: 0 <= j < i ==> RecordOf(st, ds[j]).Success?
    decreases |ds|
  {
    if ds != [] && RecordOf(st, ds[0]).Success? {
      var m := RecordOf(st, ds[0]).value;
      var next := if st.admit(records, m) then records + [m] else records;
      AppliedPassIff(st, next, ds[1..]);
      assert forall i :: 1 <= i < |ds| ==> ds[i] == ds[1..][i - 1];
      if Applied(st, next, ds[1..]).1.Fail? {
        var i :| 0 <= i < |ds[1..]| && RecordOf(st, ds[1..][i]) == Failure(Applied(st, next, ds[1..]).1.error)
          && forall j :: 0 <= j < i ==> RecordOf(st, ds[1..][j]).Success?;
        assert RecordOf(st, ds[i + 1]) == Failure(Applied(st, records, ds).1.error);
        forall j | 0 <= j < i + 1 ensures RecordOf(st, ds[j]).Success? {
          if j > 0 {
            assert ds[j] == ds[1..][j - 1];
          }
        }
      }
    }
  }

  /**
   * A batch is processed as its parts in turn: `put` of `a + b` is `put` of
   * `a`, then, unless that threw, `put` of `b` on the trie `a` left behind.
   */
  lemma {:induction false} AppliedSplit(st: Store, records: seq<Message>, a: seq<Descriptor>, b: seq<Descriptor>)
    ensures var first := Applied(st, records, a);
      Applied(st, records, a + b) == if first.1.Fail? then first else Applied(st, first.0, b)
    decreases |a|
  {
    if a == [] {
      assert a + b == b;
    } else {
      assert (a + b)[0] == a[0] && (a + b)[1..] == a[1..] + b;
      if RecordOf(st, a[0]).Success? {
        var m := RecordOf(st, a[0]).value;
        AppliedSplit(st, if st.admit(records, m) then records + [m] else records, a[1..], b);
      }
    }
  }

  /**
   * An unreadable record is not skipped: reading it throws outside the
   * `try`, so `put` stops there and none of the records after it is offered
   * to the store.
   */
  lemma UnreadableStopsBatch(st: Store, records: seq<Message>, ds: seq<Descriptor>, i: int)
    requires 0 <= i < |ds|
    requires RecordOf(st, ds[i]).Failure?
    requires forall j :: 0 <= j < i ==> RecordOf(st, ds[j]).Success?
    ensures Applied(st, records, ds) == (Applied(st, records, ds[..i]).0, Fail(RecordOf(st, ds[i]).error))
  {
    AppliedPassIff(st, records, ds[..i]);
    assert forall j :: 0 <= j < i ==> ds[..i][j] == ds[j];
    AppliedSplit(st, records, ds[..i], ds[i..]);
    assert ds[..i] + ds[i..] == ds;
    assert ds[i..][0] == ds[i];
  }

  /** The records of a batch, in order, when all of them are readable. */
  function Records(st: Store, ds: seq<Descriptor>): (r: seq<Message>)
    requires forall i :: 0 <= i < |ds| ==> RecordOf(st, ds[i]).Success?
    ensures |r| == |ds|
    ensures forall i :: 0 <= i < |ds| ==> RecordOf(st, ds[i]) == Success(r[i])
  {
    seq(|ds|, i requires 0 <= i < |ds| => RecordOf(st, ds[i]).value)
  }

  /** The records of a batch are the first record followed by the rest's. */
  lemma RecordsCons(st: Store, ds: seq<Descriptor>)
    requires ds != []
    requires forall i :: 0 <= i < |ds| ==> RecordOf(st, ds[i]).Success?
    ensures forall i :: 0 <= i < |ds[1..]| ==> RecordOf(st, ds[1..][i]).Success?
    ensures Records(st, ds) == [RecordOf(st, ds[0]).value] + Records(st, ds[1..])
  {
    forall i | 0 <= i < |ds[1..]| ensures RecordOf(st, ds[1..][i]).Success? {
      assert ds[1..][i] == ds[i + 1];
    }
    var r, t := Records(st, ds), Records(st, ds[1..]);
    forall i | 0 <= i < |r| ensures r[i] == ([RecordOf(st, ds[0]).value] + t)[i] {
      if i > 0 {
        assert ds[1..][i - 1] == ds[i];
      }
    }
  }

  /** A store that accepts every record ends up with the whole batch appended, in order. */
  lemma {:induction false} AppliedAcceptAll(st: Store, records: seq<Message>, ds: seq<Descriptor>)
    requires forall rs, m :: st.admit(rs, m)
    requires forall i :: 0 <= i < |ds| ==> RecordOf(st, ds[i]).Success?
    ensures Applied(st, records, ds) == (records + Records(st, ds), Pass)
    decreases |ds|
  {
    if ds == [] {
      assert records + [] == records;
    } else {
      var m := RecordOf(st, ds[0]).value;
      RecordsCons(st, ds);
      AppliedAcceptAll(st, records + [m], ds[1..]);
      assert records + [m] + Records(st, ds[1..]) == records + Records(st, ds);
    }
  }

  /**
   * A refused record does not stop the batch: a store that refuses
   * everything leaves the trie as it was, and `put` still returns normally
   * when every record is readable.
   */
  lemma {:induction false} AppliedRejectAll(st: Store, records: seq<Message>, ds: seq<Descriptor>)
    requires forall rs, m :: !st.admit(rs, m)
    ensures Applied(st, records, ds).0 == records
    ensures (forall i :: 0 <= i < |ds| ==> RecordOf(st, ds[i]).Success?) ==> Applied(st, records, ds).1 == Pass
    decreases |ds|
  {
    if ds != [] && RecordOf(st, ds[0]).Success? {
      assert forall i :: 0 <= i < |ds[1..]| ==> ds[1..][i] == ds[i + 1];
      AppliedRejectAll(st, records, ds[1..]);
    }
  }

  /** Every record `put` adds is a record of the batch that the store accepted on the trie as it then was. */
  lemma {:induction false} AppliedFromBatch(st: Store, records: seq<Message>, ds: seq<Descriptor>)
    ensures var after := Applied(st, records, ds).0;
      forall k :: |records| <= k < |after| ==>
        st.admit(after[..k], after[k]) && exists i :: 0 <= i < |ds| && RecordOf(st, ds[i]) == Success(after[k])
    decreases |ds|
  {
    AppliedExtends(st, records, ds);
    if ds != [] && RecordOf(st, ds[0]).Success? {
      var m := RecordOf(st, ds[0]).value;
      var next := if st.admit(records, m) then records + [m] else records;
      AppliedFromBatch(st, next, ds[1..]);
      AppliedExtends(st, next, ds[1..]);
      var after := Applied(st, records, ds).0;
      forall k | |records| <= k < |after|
        ensures st.admit(after[..k], after[k]) && exists i :: 0 <= i < |ds| && RecordOf(st, ds[i]) == Success(after[k])
      {
        if k < |next| {
          assert k == |records| && after[k] == m && after[..k] == records;
          assert RecordOf(st, ds[0]) == Success(after[k]);
        } else {
          var i :| 0 <= i < |ds[1..]| && RecordOf(st, ds[1..][i]) == Success(after[k]);
          assert ds[1..][i] == ds[i + 1];
        }
      }
    }
  }

  /**
   * The leaves `initiate` pushes reach the answering trie intact: `put` of
   * the serialized leaves offers exactly those leaves' values to the store,
   * so the batch can only be cut short by a value the record decoder rejects.
   */
  lemma PushedLeavesArrive(st: Store, c: NodeCodec, records: seq<Message>, leaves: seq<Descriptor>)
    requires Sound(c)
    requires forall i :: 0 <= i < |leaves| ==> Initiator.IsLeaf(leaves[i]) && InMemory(leaves[i])
    ensures SerializeAll(c, leaves).Success?
    ensures PutResult(st, c, records, Some(SerializeAll(c, leaves).value)) == Applied(st, records, leaves)
    ensures Applied(st, records, leaves).1.Fail? ==> Applied(st, records, leaves).1.error == MalformedRecord
  {
    SerializeRoundTrip(c, leaves);
    AppliedPassIff(st, records, leaves);
  }

  // Properties of `compare`

  /**
   * When the store's three lists hold in-memory descriptors, `compare`
   * answers, and each list of its answer reads back on the other side as
   * exactly what the store returned.
   */
  lemma CompareRoundTrip(st: Store, c: NodeCodec, records: seq<Message>, message: seq<Descriptor>)
    requires Sound(c)
    requires DeserializeAll(c, Some(message)).Success?
    requires var (missing, mismatch, matched) := st.compare(records, DeserializeAll(c, Some(message)).value);
      forall d :: d in missing + mismatch + matched ==> InMemory(d)
    ensures var r := CompareResult(st, c, records, Some(message));
      var (missing, mismatch, matched) := st.compare(records, DeserializeAll(c, Some(message)).value);
      && r.Success?
      && DeserializeAll(c, r.value.missing) == Success(missing)
      && DeserializeAll(c, r.value.mismatch) == Success(mismatch)
      && DeserializeAll(c, r.value.matched) == Success(matched)
  {
    var (missing, mismatch, matched) := st.compare(records, DeserializeAll(c, Some(message)).value);
    assert forall i :: 0 <= i < |missing| ==> missing[i] in missing + mismatch + matched;
    assert forall i :: 0 <= i < |mismatch| ==> mismatch[i] in missing + mismatch + matched;
    assert forall i :: 0 <= i < |matched| ==> matched[i] in missing + mismatch + matched;
    SerializeRoundTrip(c, missing);
    SerializeRoundTrip(c, mismatch);
    SerializeRoundTrip(c, matched);
  }
}
