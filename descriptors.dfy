/**
 * Trie node descriptors and the in-place codec `serialize`/`deserialize`
 * (src/sync.mjs) that turns their binary fields into hex text for the wire
 * and back.
 *
 * JavaScript lets a descriptor's fields hold either a Buffer or a string, and
 * the codec reassigns them in place from one to the other; `Field` and
 * `Payload` make both shapes explicit.
 */
module Descriptors {
  import opened Wrappers
  import Hex

  /** A node of the trie library, opaque apart from its variant and its stored value. */
  datatype TrieNode = LeafNode(value: seq<Hex.byte>) | BranchNode(branchValue: Option<seq<Hex.byte>>)

  /** The trie library's node encoding: `node.serialize()` and `decodeNode(bytes)` (which may throw). */
  datatype NodeCodec = NodeCodec(encode: TrieNode -> seq<Hex.byte>, decode: seq<Hex.byte> -> Option<TrieNode>)

  /**
   * The library's decoder reads back every node its encoder writes, and no
   * encoding is empty (an RLP-encoded node is at least one byte).
   */
  ghost predicate Sound(c: NodeCodec) {
    forall n :: c.encode(n) != [] && c.decode(c.encode(n)) == Some(n)
  }

  /** A `key` or `hash` field: a Buffer, or the hex string that replaced it. */
  datatype Field = Bytes(bytes: seq<Hex.byte>) | Text(text: string)

  /** The optional `node` field: absent, a decoded trie node, or its hex text. */
  datatype Payload = NoNode | Node(node: TrieNode) | Encoded(hex: string)

  datatype Descriptor = Descriptor(key: Field, hash: Field, node: Payload)

  /** Everything the sync code can throw, by cause. */
  datatype SyncError =
    | NotIterable                        // for…of over an absent collection
    | NoSerializeMethod                  // `.serialize()` called on a payload that is already text
    | NotABuffer                         // `Buffer.from` given a decoded node object
    | MalformedNode                      // `decodeNode` rejected the payload bytes
    | MissingValue                       // `node.value()` on a descriptor without a decodable value
    | MalformedRecord                    // the record inside a leaf value did not decode
    | Rejected                           // `store.add` refused the record
    | NoResponse                         // a field read on a response that never arrived
    | LevelComparisonFailed(cause: SyncError)  // initiate's wrapper around a failed levels send

  /** `f.toString("hex")`: a Buffer becomes its hex text; a string returns itself. */
  function ToHex(f: Field): (r: Field)
    ensures r.Text?
    ensures f.Text? ==> r == f
    ensures f.Bytes? ==> |r.text| == 2 * |f.bytes|
  {
    match f
    case Bytes(b) => Text(Hex.Encode(b))
    case Text(_) => f
  }

  /** `Buffer.from(f, "hex")`: a string is hex-decoded; a Buffer is copied. */
  function FromHex(f: Field): (r: Field)
    ensures r.Bytes?
    ensures f.Bytes? ==> r == f
    ensures f.Text? ==> |r.bytes| <= |f.text| / 2
  {
    match f
    case Text(s) => Bytes(Hex.Decode(s))
    case Bytes(_) => f
  }

  /** `node.node = node.node.serialize().toString("hex")` when the payload is truthy. */
  function SerializePayload(c: NodeCodec, p: Payload): Result<Payload, SyncError> {
    match p
    case Node(n) => Success(Encoded(Hex.Encode(c.encode(n))))
    case Encoded(s) => if s == "" then Success(p) else Failure(NoSerializeMethod)
    case NoNode => Success(p)
  }

  /** `node.node = decodeNode(Buffer.from(node.node, "hex"))` when the payload is truthy. */
  function DeserializePayload(c: NodeCodec, p: Payload): (r: Result<Payload, SyncError>)
    ensures r.Failure? ==> r.error == NotABuffer || r.error == MalformedNode
  {
    match p
    case Encoded(s) =>
      if s == "" then Success(p)
      else (match c.decode(Hex.Decode(s))
            case Some(n) => Success(Node(n))
            case None => Failure(MalformedNode))
    case Node(_) => Failure(NotABuffer)
    case NoNode => Success(p)
  }

  /**
   * One pass of `serialize`'s loop body: `key` and `hash` are rewritten
   * first, so a payload that cannot be serialized throws with those two
   * fields already changed.
   */
  function SerializeStep(c: NodeCodec, d: Descriptor): (Descriptor, Outcome<SyncError>) {
    var d1 := d.(key := ToHex(d.key), hash := ToHex(d.hash));
    match SerializePayload(c, d.node)
    case Failure(e) => (d1, Fail(e))
    case Success(p) => (d1.(node := p), Pass)
  }

  /** One pass of `deserialize`'s loop body, in the opposite direction. */
  function DeserializeStep(c: NodeCodec, d: Descriptor): (Descriptor, Outcome<SyncError>) {
    var d1 := d.(key := FromHex(d.key), hash := FromHex(d.hash));
    match DeserializePayload(c, d.node)
    case Failure(e) => (d1, Fail(e))
    case Success(p) => (d1.(node := p), Pass)
  }

  /**
   * The collection `serialize` leaves behind and whether it returned or
   * threw: the loop stops at the first descriptor that throws, leaving the
   * ones after it untouched.
   */
  function SerializeInPlace(c: NodeCodec, ds: seq<Descriptor>): (r: (seq<Descriptor>, Outcome<SyncError>))
    ensures |r.0| == |ds|
  {
    if ds == [] then ([], Pass)
    else
      var (d, o) := SerializeStep(c, ds[0]);
      if o.Fail? then ([d] + ds[1..], o)
      else
        var rest := SerializeInPlace(c, ds[1..]);
        ([d] + rest.0, rest.1)
  }

  /** The same for `deserialize`. */
  function DeserializeInPlace(c: NodeCodec, ds: seq<Descriptor>): (r: (seq<Descriptor>, Outcome<SyncError>))
    ensures |r.0| == |ds|
    ensures r.1.Fail? ==> r.1.error == NotABuffer || r.1.error == MalformedNode
  {
    if ds == [] then ([], Pass)
    else
      var (d, o) := DeserializeStep(c, ds[0]);
      if o.Fail? then ([d] + ds[1..], o)
      else
        var rest := DeserializeInPlace(c, ds[1..]);
        ([d] + rest.0, rest.1)
  }

  /** `serialize(nodes)` as a value: the rewritten collection, or what it threw. */
  function SerializeAll(c: NodeCodec, ds: seq<Descriptor>): (r: Result<seq<Descriptor>, SyncError>)
    ensures r.Success? ==> |r.value| == |ds|
  {
    var r := SerializeInPlace(c, ds);
    if r.1.Pass? then Success(r.0) else Failure(r.1.error)
  }

  /**
   * `deserialize(nodes)` as a value. An absent collection (`undefined`) is
   * not iterable and throws; an empty one comes back empty.
   */
  function DeserializeAll(c: NodeCodec, nodes: Option<seq<Descriptor>>): (r: Result<seq<Descriptor>, SyncError>)
    ensures nodes.None? ==> r == Failure(NotIterable)
    ensures nodes == Some([]) ==> r == Success([])
    ensures r.Success? ==> nodes.Some? && |r.value| == |nodes.value|
    ensures r.Failure? ==> r.error == NotIterable || r.error == NotABuffer || r.error == MalformedNode
  {
    match nodes
    case None => Failure(NotIterable)
    case Some(ds) =>
      var r := DeserializeInPlace(c, ds);
      if r.1.Pass? then Success(r.0) else Failure(r.1.error)
  }

  /**
   * `SerializeInPlace` as the loop computes it: the collection as it stands
   * when the loop reaches index `i`, run to the end.
   */
  ghost function SerializeFrom(c: NodeCodec, ds: seq<Descriptor>, i: nat): (seq<Descriptor>, Outcome<SyncError>)
    requires i <= |ds|
    decreases |ds| - i
  {
    if i == |ds| then (ds, Pass)
    else
      var (d, o) := SerializeStep(c, ds[i]);
      if o.Fail? then (ds[i := d], o) else SerializeFrom(c, ds[i := d], i + 1)
  }

  /** `SerializeInPlace` from position `i` when the element there throws. */
  lemma SerializeStops(c: NodeCodec, ds: seq<Descriptor>, i: nat)
    requires i < |ds| && SerializeStep(c, ds[i]).1.Fail?
    ensures SerializeInPlace(c, ds[i..]) == ([SerializeStep(c, ds[i]).0] + ds[i + 1..], SerializeStep(c, ds[i]).1)
  {
    assert ds[i..][0] == ds[i] && ds[i..][1..] == ds[i + 1..];
  }

  /** `SerializeInPlace` from position `i` when the element there passes. */
  lemma SerializeGoesOn(c: NodeCodec, ds: seq<Descriptor>, i: nat)
    requires i < |ds| && SerializeStep(c, ds[i]).1.Pass?
    ensures SerializeInPlace(c, ds[i..]).0 == [SerializeStep(c, ds[i]).0] + SerializeInPlace(c, ds[i + 1..]).0
    ensures SerializeInPlace(c, ds[i..]).1 == SerializeInPlace(c, ds[i + 1..]).1
  {
    assert ds[i..][0] == ds[i] && ds[i..][1..] == ds[i + 1..];
  }

  /** The loop's view and the recursive definition agree. */
  lemma {:induction false} SerializeFromInPlace(c: NodeCodec, ds: seq<Descriptor>, i: nat)
    requires i <= |ds|
    ensures SerializeFrom(c, ds, i) == (ds[..i] + SerializeInPlace(c, ds[i..]).0, SerializeInPlace(c, ds[i..]).1)
    decreases |ds| - i
  {
    if i == |ds| {
      assert ds[..i] == ds && ds[i..] == [];
      assert ds + [] == ds;
    } else {
      var (d, o) := SerializeStep(c, ds[i]);
      var ds' := ds[i := d];
      if o.Fail? {
        SerializeStops(c, ds, i);
        assert ds' == ds[..i] + ([d] + ds[i + 1..]);
      } else {
        SerializeGoesOn(c, ds, i);
        SerializeFromInPlace(c, ds', i + 1);
        assert ds'[..i + 1] == ds[..i] + [d] && ds'[i + 1..] == ds[i + 1..];
        var rest := SerializeInPlace(c, ds[i + 1..]).0;
        assert ds[..i] + [d] + rest == ds[..i] + ([d] + rest);
      }
    }
  }

  /**
   * `DeserializeInPlace` as the loop computes it: the collection as it stands
   * when the loop reaches index `i`, run to the end.
   */
  ghost function DeserializeFrom(c: NodeCodec, ds: seq<Descriptor>, i: nat): (seq<Descriptor>, Outcome<SyncError>)
    requires i <= |ds|
    decreases |ds| - i
  {
    if i == |ds| then (ds, Pass)
    else
      var (d, o) := DeserializeStep(c, ds[i]);
      if o.Fail? then (ds[i := d], o) else DeserializeFrom(c, ds[i := d], i + 1)
  }

  /** `DeserializeInPlace` from position `i` when the element there throws. */
  lemma DeserializeStops(c: NodeCodec, ds: seq<Descriptor>, i: nat)
    requires i < |ds| && DeserializeStep(c, ds[i]).1.Fail?
    ensures DeserializeInPlace(c, ds[i..]) == ([DeserializeStep(c, ds[i]).0] + ds[i + 1..], DeserializeStep(c, ds[i]).1)
  {
    assert ds[i..][0] == ds[i] && ds[i..][1..] == ds[i + 1..];
  }

  /** `DeserializeInPlace` from position `i` when the element there passes. */
  lemma DeserializeGoesOn(c: NodeCodec, ds: seq<Descriptor>, i: nat)
    requires i < |ds| && DeserializeStep(c, ds[i]).1.Pass?
    ensures DeserializeInPlace(c, ds[i..]).0 == [DeserializeStep(c, ds[i]).0] + DeserializeInPlace(c, ds[i + 1..]).0
    ensures DeserializeInPlace(c, ds[i..]).1 == DeserializeInPlace(c, ds[i + 1..]).1
  {
    assert ds[i..][0] == ds[i] && ds[i..][1..] == ds[i + 1..];
  }

  /** The loop's view and the recursive definition agree. */
  lemma {:induction false} DeserializeFromInPlace(c: NodeCodec, ds: seq<Descriptor>, i: nat)
    requires i <= |ds|
    ensures DeserializeFrom(c, ds, i) == (ds[..i] + DeserializeInPlace(c, ds[i..]).0, DeserializeInPlace(c, ds[i..]).1)
    decreases |ds| - i
  {
    if i == |ds| {
      assert ds[..i] == ds && ds[i..] == [];
      assert ds + [] == ds;
    } else {
      var (d, o) := DeserializeStep(c, ds[i]);
      var ds' := ds[i := d];
      if o.Fail? {
        DeserializeStops(c, ds, i);
        assert ds' == ds[..i] + ([d] + ds[i + 1..]);
      } else {
        DeserializeGoesOn(c, ds, i);
        DeserializeFromInPlace(c, ds', i + 1);
        assert ds'[..i + 1] == ds[..i] + [d] && ds'[i + 1..] == ds[i + 1..];
        var rest := DeserializeInPlace(c, ds[i + 1..]).0;
        assert ds[..i] + [d] + rest == ds[..i] + ([d] + rest);
      }
    }
  }

  /**
   * The body of `serialize`'s loop on `nodes[i]`: `key` and `hash` are
   * replaced first, then the payload, which may throw.
   */
  method SerializeAt(c: NodeCodec, nodes: array<Descriptor>, i: nat) returns (o: Outcome<SyncError>)
    requires i < nodes.Length
    modifies nodes
    ensures (nodes[i], o) == SerializeStep(c, old(nodes[i]))
    ensures nodes[..] == old(nodes[..])[i := nodes[i]]
  {
    var d := nodes[i];
    d := d.(key := ToHex(d.key));
    d := d.(hash := ToHex(d.hash));
    nodes[i] := d;
    var p := SerializePayload(c, d.node);
    if p.Failure? {
      return Fail(p.error);
    }
    nodes[i] := d.(node := p.value);
    return Pass;
  }

  /** A fresh array holding `s`, as an array literal or a copied list would be. */
  method NewArray(s: seq<Descriptor>) returns (a: array<Descriptor>)
    ensures fresh(a) && a[..] == s
  {
    a := new Descriptor[|s|](i requires 0 <= i < |s| => s[i]);
  }

  /**
   * `serialize` over an array, rewriting each element where it stands.
   * On a throw the array is left exactly as far as the loop had got.
   */
  method Serialize(c: NodeCodec, nodes: array<Descriptor>) returns (out: Outcome<SyncError>)
    modifies nodes
    ensures (nodes[..], out) == SerializeInPlace(c, old(nodes[..]))
  {
    ghost var ds := nodes[..];
    SerializeFromInPlace(c, ds, 0);
    assert ds[..0] + SerializeInPlace(c, ds[0..]).0 == SerializeInPlace(c, ds).0;
    var i := 0;
    while i < nodes.Length
      invariant 0 <= i <= nodes.Length
      invariant SerializeFrom(c, nodes[..], i) == SerializeFrom(c, ds, 0)
    {
      out := SerializeAt(c, nodes, i);
      if out.Fail? {
        return;
      }
      i := i + 1;
    }
    return Pass;
  }

  /** The body of `deserialize`'s loop on `nodes[i]`. */
  method DeserializeAt(c: NodeCodec, nodes: array<Descriptor>, i: nat) returns (o: Outcome<SyncError>)
    requires i < nodes.Length
    modifies nodes
    ensures (nodes[i], o) == DeserializeStep(c, old(nodes[i]))
    ensures nodes[..] == old(nodes[..])[i := nodes[i]]
  {
    var d := nodes[i];
    d := d.(key := FromHex(d.key));
    d := d.(hash := FromHex(d.hash));
    nodes[i] := d;
    var p := DeserializePayload(c, d.node);
    if p.Failure? {
      return Fail(p.error);
    }
    nodes[i] := d.(node := p.value);
    return Pass;
  }

  /**
   * `deserialize` over an array; `null` stands for an absent (`undefined`)
   * collection, which throws before anything is touched.
   */
  method Deserialize(c: NodeCodec, nodes: array?<Descriptor>) returns (out: Outcome<SyncError>)
    modifies nodes
    ensures nodes == null ==> out == Fail(NotIterable)
    ensures nodes != null ==> (nodes[..], out) == DeserializeInPlace(c, old(nodes[..]))
  {
    if nodes == null {
      return Fail(NotIterable);
    }
    out := DeserializeEach(c, nodes);
  }

  /** The loop of `deserialize` over a collection that is present. */
  method DeserializeEach(c: NodeCodec, nodes: array<Descriptor>) returns (out: Outcome<SyncError>)
    modifies nodes
    ensures (nodes[..], out) == DeserializeInPlace(c, old(nodes[..]))
  {
    ghost var ds := nodes[..];
    DeserializeFromInPlace(c, ds, 0);
    assert ds[..0] + DeserializeInPlace(c, ds[0..]).0 == DeserializeInPlace(c, ds).0;
    var i := 0;
    while i < nodes.Length
      invariant 0 <= i <= nodes.Length
      invariant DeserializeFrom(c, nodes[..], i) == DeserializeFrom(c, ds, 0)
    {
      out := DeserializeAt(c, nodes, i);
      if out.Fail? {
        return;
      }
      i := i + 1;
    }
    return Pass;
  }

  /** A descriptor as the trie library hands it out: binary fields and, if any, a decoded node. */
  predicate InMemory(d: Descriptor) {
    d.key.Bytes? && d.hash.Bytes? && !d.node.Encoded?
  }

  /** `serialize` throws exactly when some payload is already non-empty text. */
  lemma {:induction false} SerializeSucceedsIff(c: NodeCodec, ds: seq<Descriptor>)
    ensures SerializeAll(c, ds).Success? <==>
            forall i :: 0 <= i < |ds| ==> !(ds[i].node.Encoded? && ds[i].node.hex != "")
  {
    if ds != [] {
      SerializeSucceedsIff(c, ds[1..]);
      assert forall i :: 1 <= i < |ds| ==> ds[i] == ds[1..][i - 1];
    }
  }

  /**
   * On descriptors fresh from the trie, `serialize` succeeds and keeps order
   * and length; it turns each `key` and `hash` into the hex text of its bytes,
   * and hex-encodes a payload's node encoding only where there is a payload.
   */
  lemma {:induction false} SerializeShape(c: NodeCodec, ds: seq<Descriptor>)
    requires forall i :: 0 <= i < |ds| ==> InMemory(ds[i])
    ensures SerializeAll(c, ds).Success?
    ensures |SerializeAll(c, ds).value| == |ds|
    ensures forall i :: 0 <= i < |ds| && InMemory(ds[i]) ==>
      var w := SerializeAll(c, ds).value[i];
      && w.key == Text(Hex.Encode(ds[i].key.bytes))
      && w.hash == Text(Hex.Encode(ds[i].hash.bytes))
      && w.node == (if ds[i].node.Node? then Encoded(Hex.Encode(c.encode(ds[i].node.node))) else NoNode)
  {
    if ds != [] {
      SerializeShape(c, ds[1..]);
      var w := SerializeAll(c, ds).value;
      assert w == [SerializeStep(c, ds[0]).0] + SerializeAll(c, ds[1..]).value;
      forall i | 1 <= i < |ds| ensures w[i] == SerializeAll(c, ds[1..]).value[i - 1] && ds[i] == ds[1..][i - 1] {
      }
    }
  }

  /** One descriptor fresh from the trie comes back unchanged from a serialize/deserialize pass. */
  lemma DescriptorRoundTrip(c: NodeCodec, d: Descriptor)
    requires Sound(c) && InMemory(d)
    ensures SerializeStep(c, d).1 == Pass
    ensures DeserializeStep(c, SerializeStep(c, d).0) == (d, Pass)
  {
    Hex.DecodeEncode(d.key.bytes);
    Hex.DecodeEncode(d.hash.bytes);
    if d.node.Node? {
      Hex.DecodeEncode(c.encode(d.node.node));
      assert |Hex.Encode(c.encode(d.node.node))| == 2 * |c.encode(d.node.node)| > 0;
    }
  }

  /**
   * Deserializing what `serialize` produced from descriptors fresh from the
   * trie restores them exactly: the same `key` and `hash` bytes, the same
   * node where there was one, and no node where there was none.
   */
  lemma {:induction false} SerializeRoundTrip(c: NodeCodec, ds: seq<Descriptor>)
    requires Sound(c)
    requires forall i :: 0 <= i < |ds| ==> InMemory(ds[i])
    ensures SerializeAll(c, ds).Success?
    ensures DeserializeAll(c, Some(SerializeAll(c, ds).value)) == Success(ds)
  {
    if ds != [] {
      SerializeRoundTrip(c, ds[1..]);
      RoundTripCons(c, ds);
    }
  }

  /** The round trip carries over from the tail of a list to the whole list. */
  lemma RoundTripCons(c: NodeCodec, ds: seq<Descriptor>)
    requires Sound(c) && ds != [] && InMemory(ds[0])
    requires SerializeAll(c, ds[1..]).Success?
    requires DeserializeAll(c, Some(SerializeAll(c, ds[1..]).value)) == Success(ds[1..])
    ensures SerializeAll(c, ds).Success?
    ensures DeserializeAll(c, Some(SerializeAll(c, ds).value)) == Success(ds)
  {
    DescriptorRoundTrip(c, ds[0]);
    SerializeCons(c, ds);
    DeserializeCons(c, SerializeStep(c, ds[0]).0, SerializeAll(c, ds[1..]).value);
    assert [ds[0]] + ds[1..] == ds;
  }

  /** `serialize` of a list whose head passes is that head's step followed by `serialize` of the tail. */
  lemma SerializeCons(c: NodeCodec, ds: seq<Descriptor>)
    requires ds != [] && SerializeStep(c, ds[0]).1.Pass?
    ensures SerializeAll(c, ds[1..]).Success? ==>
      SerializeAll(c, ds) == Success([SerializeStep(c, ds[0]).0] + SerializeAll(c, ds[1..]).value)
  {
    assert ds[0..] == ds;
    SerializeGoesOn(c, ds, 0);
  }

  /** `deserialize` of a list whose head passes is that head's step followed by `deserialize` of the tail. */
  lemma DeserializeCons(c: NodeCodec, w: Descriptor, rest: seq<Descriptor>)
    requires DeserializeStep(c, w).1.Pass?
    ensures DeserializeAll(c, Some(rest)).Success? ==>
      DeserializeAll(c, Some([w] + rest)) == Success([DeserializeStep(c, w).0] + DeserializeAll(c, Some(rest)).value)
  {
    var sent := [w] + rest;
    assert sent[0] == w && sent[0..] == sent && sent[1..] == rest;
    DeserializeGoesOn(c, sent, 0);
  }

  /** A Buffer field survives `toString("hex")` then `Buffer.from(…, "hex")`. */
  lemma BytesRoundTrip(f: Field)
    requires f.Bytes?
    ensures FromHex(ToHex(f)) == f
  {
    Hex.DecodeEncode(f.bytes);
  }

  /** Lowercase hex text of even length survives `Buffer.from(…, "hex")` then `toString("hex")`. */
  lemma TextRoundTrip(f: Field)
    requires f.Text? && Hex.IsCanonical(f.text)
    ensures ToHex(FromHex(f)) == f
  {
    Hex.EncodeDecode(f.text);
  }

  /**
   * When `deserialize` returns, every `key` and `hash` is the Buffer read
   * from the corresponding input field, in the same order.
   */
  lemma {:induction false} DeserializeFields(c: NodeCodec, ds: seq<Descriptor>)
    requires DeserializeAll(c, Some(ds)).Success?
    ensures forall i :: 0 <= i < |ds| ==>
      && DeserializeAll(c, Some(ds)).value[i].key == FromHex(ds[i].key)
      && DeserializeAll(c, Some(ds)).value[i].hash == FromHex(ds[i].hash)
  {
    if ds != [] {
      var r := DeserializeInPlace(c, ds);
      var rest := DeserializeInPlace(c, ds[1..]);
      assert r.0 == [DeserializeStep(c, ds[0]).0] + rest.0;
      DeserializeFields(c, ds[1..]);
      forall i | 1 <= i < |ds| ensures r.0[i] == rest.0[i - 1] && ds[i] == ds[1..][i - 1] {
      }
    }
  }
}
