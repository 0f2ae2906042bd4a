/**
 * The active side of trie sync, `initiate` in src/sync.mjs: descend the
 * local trie one level at a time, send that level's nodes to the peer over
 * `/levels/1.0.0`, push the leaves the peer is missing over `/leaves/1.0.0`,
 * and go one level deeper, excluding the subtrees the peer reported as
 * matching.
 *
 * The trie (`store.descend`) and the network (`innerSend`) are collaborators
 * whose code is not part of this model; they are the functions of a `Peer`.
 */
module Initiator {
  import opened Wrappers
  import opened Descriptors

  datatype Protocol = Levels | Leaves   // "/levels/1.0.0" and "/leaves/1.0.0"

  /** One message put on the wire: the protocol dialed and the serialized descriptors sent. */
  datatype Request = Request(protocol: Protocol, body: seq<Descriptor>)

  /** A comparison reply as decoded from the wire; any of its three lists may be absent. */
  datatype Comparison = Comparison(
    missing: Option<seq<Descriptor>>,
    mismatch: Option<seq<Descriptor>>,
    matched: Option<seq<Descriptor>>)

  /** How an `innerSend` call ends: it throws, or resolves to the first decoded frame, if there is one. */
  datatype Reply = Threw(error: SyncError) | NoFrame | Replied(comparison: Comparison)

  /**
   * The collaborators of `initiate`: `store.descend` over the local trie
   * (from a level and an exclusion list of hashes to that level's nodes),
   * `innerSend` (the reply to a request, given every request sent before it),
   * and the trie library's node codec.
   */
  datatype Peer = Peer(
    descend: (nat, seq<Field>) -> seq<Descriptor>,
    send: (seq<Request>, Request) -> Reply,
    codec: NodeCodec)

  /** The trie has no nodes at `height` or below, whatever is excluded. */
  ghost predicate Bounded(p: Peer, height: nat) {
    forall level: nat, exclude: seq<Field> :: height <= level ==> p.descend(level, exclude) == []
  }

  /** `node instanceof LeafNode`. */
  predicate IsLeaf(d: Descriptor) {
    d.node.Node? && d.node.node.LeafNode?
  }

  /** `missing.filter(({ node }) => node instanceof LeafNode)`. */
  function LeafOnly(ds: seq<Descriptor>): (r: seq<Descriptor>)
    ensures |r| <= |ds|
    ensures forall i :: 0 <= i < |r| ==> IsLeaf(r[i]) && r[i] in ds
    ensures forall i :: 0 <= i < |ds| && IsLeaf(ds[i]) ==> ds[i] in r
  {
    if ds == [] then []
    else if IsLeaf(ds[0]) then [ds[0]] + LeafOnly(ds[1..])
    else LeafOnly(ds[1..])
  }

  /** The filter keeps the order of the list: filtering a concatenation filters each part. */
  lemma {:induction false} LeafOnlyAppend(a: seq<Descriptor>, b: seq<Descriptor>)
    ensures LeafOnly(a + b) == LeafOnly(a) + LeafOnly(b)
  {
    if a == [] {
      assert a + b == b;
    } else {
      assert (a + b)[0] == a[0] && (a + b)[1..] == a[1..] + b;
      LeafOnlyAppend(a[1..], b);
    }
  }

  /** A single descriptor is kept, once, exactly when it is a leaf. */
  lemma LeafOnlyOne(d: Descriptor)
    ensures LeafOnly([d]) == if IsLeaf(d) then [d] else []
  {
    assert [d][1..] == [];
  }

  /** `match.map((node) => node.hash)`. */
  function Hashes(ds: seq<Descriptor>): (r: seq<Field>)
    ensures |r| == |ds|
  {
    seq(|ds|, i requires 0 <= i < |ds| => ds[i].hash)
  }

  /**
   * The leaf push of one round, after `history`: nothing when no leaf is
   * missing; otherwise one `/leaves` request, and what the push threw, if
   * anything (the source rethrows it unchanged).
   */
  function Push(p: Peer, history: seq<Request>, leaves: seq<Descriptor>): (r: (seq<Request>, Option<SyncError>))
    ensures leaves == [] ==> r == ([], None)
    ensures |r.0| <= 1
    ensures r.0 != [] ==> r.0[0].protocol == Leaves && |r.0[0].body| == |leaves|
    ensures r.0 == [] && leaves != [] ==> r.1.Some?
  {
    if leaves == [] then ([], None)
    else match SerializeAll(p.codec, leaves)
      case Failure(e) => ([], Some(e))
      case Success(body) =>
        var push := Request(Leaves, body);
        match p.send(history, push)
        case Threw(e) => ([push], Some(e))
        case _ => ([push], None)
  }

  /** How one call of `initiate` ends: it returns or throws, or it recurses with a new exclusion list. */
  datatype Step =
    | Stop(outcome: Outcome<SyncError>, sent: seq<Request>)
    | Next(sent: seq<Request>, exclude: seq<Field>)

  /**
   * One call of `initiate` at `level`, after `history` was sent: what it
   * sends, and whether it stops or recurses.
   */
  function Round(p: Peer, history: seq<Request>, level: nat, exclude: seq<Field>): (s: Step)
    ensures s.Next? ==> p.descend(level, exclude) != []
  {
    var remotes := p.descend(level, exclude);
    if remotes == [] then Stop(Pass, [])
    else match SerializeAll(p.codec, remotes)
      case Failure(e) => Stop(Fail(LevelComparisonFailed(e)), [])
      case Success(body) =>
        var ask := Request(Levels, body);
        AfterAsk(p, history, ask, p.send(history, ask))
  }

  /** The rest of the round once the `/levels` request `ask` has been answered with `reply`. */
  function AfterAsk(p: Peer, history: seq<Request>, ask: Request, reply: Reply): (s: Step)
    ensures s.sent != [] && s.sent[0] == ask
    ensures s.Next? ==> reply.Replied? && |s.sent| <= 2
  {
    match reply
    case Threw(e) => Stop(Fail(LevelComparisonFailed(e)), [ask])
    case NoFrame => Stop(Fail(NoResponse), [ask])
    case Replied(cmp) =>
      match DeserializeAll(p.codec, cmp.missing)
      case Failure(e) => Stop(Fail(e), [ask])
      case Success(missing) =>
        var (push, err) := Push(p, history + [ask], LeafOnly(missing));
        if err.Some? then Stop(Fail(err.value), [ask] + push)
        else match DeserializeAll(p.codec, cmp.matched)
          case Failure(e) => Stop(Fail(e), [ask] + push)
          case Success(matched) => Next([ask] + push, Hashes(matched))
  }

  /** Rounds, as a function of what was sent before, the level and the exclusion list. */
  type RoundFn = (seq<Request>, nat, seq<Field>) -> Step

  /** No round at `height` or deeper recurses. */
  ghost predicate EndsBy(round: RoundFn, height: nat) {
    forall h: seq<Request>, l: nat, e: seq<Field> :: round(h, l, e).Next? ==> l < height
  }

  /**
   * The recursion of `initiate` for a given round behaviour: play rounds at
   * `level`, `level + 1`, … until one stops; the outcome and every request
   * sent, after `history`.
   */
  function Descent(round: RoundFn, height: nat, history: seq<Request>, level: nat, exclude: seq<Field>): (r: (Outcome<SyncError>, seq<Request>))
    requires EndsBy(round, height)
    decreases height - level
  {
    match round(history, level, exclude)
    case Stop(o, sent) => (o, history + sent)
    case Next(sent, next) => Descent(round, height, history + sent, level + 1, next)
  }

  /** The rounds of `initiate` against a given peer. */
  function Rounds(p: Peer): RoundFn {
    (h: seq<Request>, l: nat, e: seq<Field>) => Round(p, h, l, e)
  }

  lemma RoundsEndBy(p: Peer, height: nat)
    requires Bounded(p, height)
    ensures EndsBy(Rounds(p), height)
  {
    forall h: seq<Request>, l: nat, e: seq<Field> | Rounds(p)(h, l, e).Next? ensures l < height {
      assert Round(p, h, l, e).Next?;
    }
  }

  /**
   * `initiate(trie, peerId, exclude, level, innerSend)` to the end of its
   * recursion: how it ends and every request sent, after `history`.
   */
  function Run(p: Peer, height: nat, history: seq<Request>, level: nat, exclude: seq<Field>): (r: (Outcome<SyncError>, seq<Request>))
    requires Bounded(p, height)
  {
    RoundsEndBy(p, height);
    Descent(Rounds(p), height, history, level, exclude)
  }

  /** `Run` after one round: it ends with that round, or continues one level deeper. */
  lemma RunStep(p: Peer, height: nat, history: seq<Request>, level: nat, exclude: seq<Field>, step: Step)
    requires Bounded(p, height)
    requires step == Round(p, history, level, exclude)
    ensures step.Stop? ==> Run(p, height, history, level, exclude) == (step.outcome, history + step.sent)
    ensures step.Next? ==> level < height
    ensures step.Next? ==> Run(p, height, history, level, exclude) == Run(p, height, history + step.sent, level + 1, step.exclude)
  {
    RoundsEndBy(p, height);
    assert Rounds(p)(history, level, exclude) == step;
  }

  /** A fresh array holding the list, or `null` for an absent one. */
  method ToArray(o: Option<seq<Descriptor>>) returns (a: array?<Descriptor>)
    ensures o.None? <==> a == null
    ensures a != null ==> fresh(a) && a[..] == o.value
  {
    match o {
      case None => a := null;
      case Some(ds) => a := NewArray(ds);
    }
  }

  /** The leaf push of one round (source lines 136-147), on arrays serialized in place. */
  method PushLeaves(p: Peer, history: seq<Request>, leaves: seq<Descriptor>) returns (push: seq<Request>, err: Option<SyncError>)
    ensures (push, err) == Push(p, history, leaves)
  {
    if |leaves| == 0 {
      return [], None;
    }
    var pushing := NewArray(leaves);
    var o := Serialize(p.codec, pushing);
    if o.Fail? {
      return [], Some(o.error);
    }
    var req := Request(Leaves, pushing[..]);
    var reply := p.send(history, req);
    push := [req];
    err := if reply.Threw? then Some(reply.error) else None;
  }

  /**
   * The body of one `initiate` call, up to its recursive call: descend,
   * compare over `/levels`, push missing leaves, collect the matched hashes.
   */
  method Exchange(p: Peer, history: seq<Request>, level: nat, exclude: seq<Field>) returns (step: Step)
    ensures step == Round(p, history, level, exclude)
  {
    var found := p.descend(level, exclude);
    if |found| == 0 {
      return Stop(Pass, []);
    }
    var remotes := NewArray(found);
    var o := Serialize(p.codec, remotes);
    if o.Fail? {
      return Stop(Fail(LevelComparisonFailed(o.error)), []);
    }
    var ask := Request(Levels, remotes[..]);
    var reply := p.send(history, ask);
    assert Round(p, history, level, exclude) == AfterAsk(p, history, ask, reply);
    if reply.Threw? {
      return Stop(Fail(LevelComparisonFailed(reply.error)), [ask]);
    }
    if reply.NoFrame? {
      return Stop(Fail(NoResponse), [ask]);
    }
    var missing := ToArray(reply.comparison.missing);
    o := Deserialize(p.codec, missing);
    if o.Fail? {
      return Stop(Fail(o.error), [ask]);
    }
    var push, err := PushLeaves(p, history + [ask], LeafOnly(missing[..]));
    if err.Some? {
      return Stop(Fail(err.value), [ask] + push);
    }
    var matched := ToArray(reply.comparison.matched);
    o := Deserialize(p.codec, matched);
    if o.Fail? {
      return Stop(Fail(o.error), [ask] + push);
    }
    return Next([ask] + push, Hashes(matched[..]));
  }

  /** One call of `initiate`, and where it leaves the rest of the recursion. */
  method Advance(p: Peer, height: nat, history: seq<Request>, level: nat, exclude: seq<Field>) returns (step: Step)
    requires Bounded(p, height)
    ensures step.Stop? ==> Run(p, height, history, level, exclude) == (step.outcome, history + step.sent)
    ensures step.Next? ==> level < height
    ensures step.Next? ==> Run(p, height, history, level, exclude) == Run(p, height, history + step.sent, level + 1, step.exclude)
  {
    step := Exchange(p, history, level, exclude);
    RunStep(p, height, history, level, exclude, step);
  }

  /**
   * `initiate` as the loop its tail recursion amounts to; `sent` lists the
   * requests put on the wire, in order.
   */
  method Initiate(p: Peer, height: nat, exclude: seq<Field>, level: nat) returns (out: Outcome<SyncError>, sent: seq<Request>)
    requires Bounded(p, height)
    ensures (out, sent) == Run(p, height, [], level, exclude)
  {
    ghost var goal := Run(p, height, [], level, exclude);
    var ex, lvl := exclude, level;
    sent := [];
    while true
      invariant Run(p, height, sent, lvl, ex) == goal
      decreases height - lvl
    {
      var step := Advance(p, height, sent, lvl, ex);
      if step.Stop? {
        return step.outcome, sent + step.sent;
      }
      sent, ex, lvl := sent + step.sent, step.exclude, lvl + 1;
    }
  }

  // Properties of the descent, for any round behaviour

  /** The requests a descent sends after `history`. */
  function SentBy(round: RoundFn, height: nat, history: seq<Request>, level: nat, exclude: seq<Field>): (r: seq<Request>)
    requires EndsBy(round, height)
    ensures history + r == Descent(round, height, history, level, exclude).1
  {
    DescentExtends(round, height, history, level, exclude);
    Descent(round, height, history, level, exclude).1[|history|..]
  }

  /** A descent only ever appends to what was sent before it. */
  lemma {:induction false} DescentExtends(round: RoundFn, height: nat, history: seq<Request>, level: nat, exclude: seq<Field>)
    requires EndsBy(round, height)
    ensures history <= Descent(round, height, history, level, exclude).1
    decreases height - level
  {
    var step := round(history, level, exclude);
    if step.Next? {
      DescentExtends(round, height, history + step.sent, level + 1, step.exclude);
    }
  }

  /** A descent whose every recursing round sends something ends at once with nothing sent iff its first round does. */
  lemma DescentEndsQuietlyIff(round: RoundFn, height: nat, history: seq<Request>, level: nat, exclude: seq<Field>)
    requires EndsBy(round, height)
    requires forall h: seq<Request>, l: nat, e: seq<Field> :: round(h, l, e).Next? ==> round(h, l, e).sent != []
    ensures Descent(round, height, history, level, exclude) == (Pass, history) <==> round(history, level, exclude) == Stop(Pass, [])
  {
    var step := round(history, level, exclude);
    var trace := Descent(round, height, history, level, exclude).1;
    if step.Next? {
      DescentExtends(round, height, history + step.sent, level + 1, step.exclude);
      assert |trace| > |history|;
    } else {
      assert Descent(round, height, history, level, exclude) == (step.outcome, history + step.sent);
      assert |trace| == |history| + |step.sent|;
      assert history + [] == history;
    }
  }

  /** If every round pushes only leaves, so does the whole descent. */
  lemma {:induction false} DescentPushesOnlyLeaves(c: NodeCodec, round: RoundFn, height: nat, history: seq<Request>, level: nat, exclude: seq<Field>)
    requires EndsBy(round, height)
    requires forall h: seq<Request>, l: nat, e: seq<Field> :: PushesOnlyLeaves(c, round(h, l, e).sent)
    ensures PushesOnlyLeaves(c, SentBy(round, height, history, level, exclude))
    decreases height - level
  {
    var step := round(history, level, exclude);
    if step.Next? {
      var h2 := history + step.sent;
      DescentPushesOnlyLeaves(c, round, height, h2, level + 1, step.exclude);
      var later := SentBy(round, height, h2, level + 1, step.exclude);
      PushesOnlyLeavesAppend(c, step.sent, later);
      assert SentBy(round, height, history, level, exclude) == step.sent + later;
    } else {
      assert SentBy(round, height, history, level, exclude) == step.sent;
    }
  }

  /** If every round sends at most one `/levels` request, and none at `height` or deeper, so the descent sends at most `height - level`. */
  lemma {:induction false} DescentCountLevels(round: RoundFn, height: nat, history: seq<Request>, level: nat, exclude: seq<Field>)
    requires EndsBy(round, height)
    requires forall h: seq<Request>, l: nat, e: seq<Field> :: CountLevels(round(h, l, e).sent) <= (if l < height then 1 else 0)
    requires level <= height
    ensures CountLevels(SentBy(round, height, history, level, exclude)) <= height - level
    decreases height - level
  {
    var step := round(history, level, exclude);
    assert CountLevels(step.sent) <= (if level < height then 1 else 0);
    if step.Next? {
      var h2 := history + step.sent;
      DescentCountLevels(round, height, h2, level + 1, step.exclude);
      var later := SentBy(round, height, h2, level + 1, step.exclude);
      CountLevelsAppend(step.sent, later);
      assert SentBy(round, height, history, level, exclude) == step.sent + later;
    } else {
      assert SentBy(round, height, history, level, exclude) == step.sent;
    }
  }

  // Properties of `initiate`

  /** The requests `Run` sends after `history`. */
  function SentAfter(p: Peer, height: nat, history: seq<Request>, level: nat, exclude: seq<Field>): (r: seq<Request>)
    requires Bounded(p, height)
    ensures history + r == Run(p, height, history, level, exclude).1
  {
    RoundsEndBy(p, height);
    SentBy(Rounds(p), height, history, level, exclude)
  }

  /**
   * The shape of one round's traffic: at most two requests, the first over
   * `/levels` and a second only over `/leaves`; a round that recurses has
   * sent its `/levels` request, and one that sends nothing and succeeds
   * found no node to compare.
   */
  lemma RoundShape(p: Peer, history: seq<Request>, level: nat, exclude: seq<Field>)
    ensures var step := Round(p, history, level, exclude);
      && |step.sent| <= 2
      && (step.sent != [] ==> step.sent[0].protocol == Levels)
      && (|step.sent| == 2 ==> step.sent[1].protocol == Leaves)
      && (step.Next? ==> step.sent != [])
      && (step == Stop(Pass, []) <==> p.descend(level, exclude) == [])
  {
  }

  /**
   * `initiate` returns at once, having sent nothing, exactly when `descend`
   * finds no node at the current level.
   */
  lemma EndsQuietlyIff(p: Peer, height: nat, history: seq<Request>, level: nat, exclude: seq<Field>)
    requires Bounded(p, height)
    ensures Run(p, height, history, level, exclude) == (Pass, history) <==> p.descend(level, exclude) == []
  {
    RoundsEndBy(p, height);
    forall h: seq<Request>, l: nat, e: seq<Field> | Rounds(p)(h, l, e).Next? ensures Rounds(p)(h, l, e).sent != [] {
      RoundShape(p, h, l, e);
    }
    DescentEndsQuietlyIff(Rounds(p), height, history, level, exclude);
    RoundShape(p, history, level, exclude);
  }

  /** Every request `Run` sends on `/leaves` carries only leaf nodes, and at least one. */
  ghost predicate CarriesOnlyLeaves(c: NodeCodec, r: Request) {
    && r.body != []
    && DeserializeAll(c, Some(r.body)).Success?
    && forall i :: 0 <= i < |r.body| ==> IsLeaf(DeserializeAll(c, Some(r.body)).value[i])
  }

  /** Every `/leaves` request in `reqs` carries leaf nodes only, and at least one. */
  ghost predicate PushesOnlyLeaves(c: NodeCodec, reqs: seq<Request>) {
    forall i :: 0 <= i < |reqs| && reqs[i].protocol == Leaves ==> CarriesOnlyLeaves(c, reqs[i])
  }

  lemma PushesOnlyLeavesAppend(c: NodeCodec, a: seq<Request>, b: seq<Request>)
    requires PushesOnlyLeaves(c, a) && PushesOnlyLeaves(c, b)
    ensures PushesOnlyLeaves(c, a + b)
  {
    forall i | 0 <= i < |a + b| && (a + b)[i].protocol == Leaves ensures CarriesOnlyLeaves(c, (a + b)[i]) {
      if i >= |a| {
        assert (a + b)[i] == b[i - |a|];
      }
    }
  }

  /** What the push phase sends: one `/leaves` request of leaves exactly when there are leaves. */
  lemma PushOnlyLeaves(p: Peer, history: seq<Request>, leaves: seq<Descriptor>)
    requires Sound(p.codec)
    requires forall i :: 0 <= i < |leaves| ==> IsLeaf(leaves[i]) && leaves[i].key.Bytes? && leaves[i].hash.Bytes?
    ensures var (push, err) := Push(p, history, leaves);
      && (push != [] <==> leaves != [])
      && |push| <= 1
      && (push != [] ==> push[0].protocol == Leaves && CarriesOnlyLeaves(p.codec, push[0]))
      && (push != [] ==> DeserializeAll(p.codec, Some(push[0].body)) == Success(leaves))
      && (err.Some? ==> push != [] && p.send(history, push[0]) == Threw(err.value))
  {
    if leaves != [] {
      SerializeRoundTrip(p.codec, leaves);
    }
  }

  /** The leaves `initiate` picks out of a deserialized `missing` list have binary fields, as pushing needs. */
  lemma MissingLeavesInMemory(c: NodeCodec, missing: Option<seq<Descriptor>>, leaves: seq<Descriptor>)
    requires DeserializeAll(c, missing).Success?
    requires leaves == LeafOnly(DeserializeAll(c, missing).value)
    ensures forall i :: 0 <= i < |leaves| ==> IsLeaf(leaves[i]) && leaves[i].key.Bytes? && leaves[i].hash.Bytes?
  {
    assert missing == Some(missing.value);
    DeserializeFields(c, missing.value);
    var ds := DeserializeAll(c, missing).value;
    assert forall d :: d in ds ==> d.key.Bytes? && d.hash.Bytes?;
  }

  /**
   * Over `/leaves` a round sends only leaf nodes: the second request of a
   * round, if any, carries leaf descriptors and nothing else.
   */
  lemma RoundPushesLeaves(p: Peer, history: seq<Request>, level: nat, exclude: seq<Field>)
    requires Sound(p.codec)
    ensures PushesOnlyLeaves(p.codec, Round(p, history, level, exclude).sent)
  {
    var step := Round(p, history, level, exclude);
    var remotes := p.descend(level, exclude);
    if remotes != [] && SerializeAll(p.codec, remotes).Success? {
      var ask := Request(Levels, SerializeAll(p.codec, remotes).value);
      var reply := p.send(history, ask);
      assert step == AfterAsk(p, history, ask, reply);
      assert PushesOnlyLeaves(p.codec, [ask]);
      if reply.Replied? && DeserializeAll(p.codec, reply.comparison.missing).Success? {
        var leaves := LeafOnly(DeserializeAll(p.codec, reply.comparison.missing).value);
        MissingLeavesInMemory(p.codec, reply.comparison.missing, leaves);
        PushOnlyLeaves(p, history + [ask], leaves);
        var push := Push(p, history + [ask], leaves).0;
        assert step.sent == [ask] + push;
        PushesOnlyLeavesAppend(p.codec, [ask], push);
      } else {
        assert step.sent == [ask];
      }
    } else {
      assert step.sent == [];
    }
  }

  /**
   * Missing descriptors without a payload or with a branch payload are never
   * pushed: a round sends `/leaves` exactly when the deserialized `missing`
   * list holds a leaf, and then sends exactly those leaves, in order.
   */
  lemma PushIffMissingLeaves(p: Peer, history: seq<Request>, level: nat, exclude: seq<Field>, cmp: Comparison)
    requires Sound(p.codec)
    requires p.descend(level, exclude) != []
    requires SerializeAll(p.codec, p.descend(level, exclude)).Success?
    requires p.send(history, Request(Levels, SerializeAll(p.codec, p.descend(level, exclude)).value)) == Replied(cmp)
    requires DeserializeAll(p.codec, cmp.missing).Success?
    ensures var sent := Round(p, history, level, exclude).sent;
      var leaves := LeafOnly(DeserializeAll(p.codec, cmp.missing).value);
      && (|sent| == 2 <==> leaves != [])
      && (|sent| == 2 ==> DeserializeAll(p.codec, Some(sent[1].body)) == Success(leaves))
  {
    var ask := Request(Levels, SerializeAll(p.codec, p.descend(level, exclude)).value);
    var leaves := LeafOnly(DeserializeAll(p.codec, cmp.missing).value);
    MissingLeavesInMemory(p.codec, cmp.missing, leaves);
    PushOnlyLeaves(p, history + [ask], leaves);
  }

  /**
   * When `initiate` recurses, its new exclusion list is exactly the hashes
   * of the `match` descriptors of this round's reply, in order, read back
   * into Buffers; the previous exclusion list is not carried over.
   */
  lemma NextExclusion(p: Peer, history: seq<Request>, level: nat, exclude: seq<Field>)
    requires Round(p, history, level, exclude).Next?
    ensures var step := Round(p, history, level, exclude);
      && step.sent != [] && step.sent[0].protocol == Levels
      && p.send(history, step.sent[0]).Replied?
      && var matched := p.send(history, step.sent[0]).comparison.matched;
      && matched.Some?
      && |step.exclude| == |matched.value|
      && forall i :: 0 <= i < |step.exclude| ==> step.exclude[i] == FromHex(matched.value[i].hash)
  {
    var remotes := p.descend(level, exclude);
    var ask := Request(Levels, SerializeAll(p.codec, remotes).value);
    var cmp := p.send(history, ask).comparison;
    DeserializeFields(p.codec, cmp.matched.value);
  }

  /**
   * A failed `/levels` send ends `initiate` with that error wrapped as a
   * level-comparison failure; a failed `/leaves` send ends it with that
   * error unchanged. Either way no deeper level is compared.
   */
  lemma SendFailuresEnd(p: Peer, height: nat, history: seq<Request>, level: nat, exclude: seq<Field>)
    requires Bounded(p, height)
    requires p.descend(level, exclude) != []
    requires SerializeAll(p.codec, p.descend(level, exclude)).Success?
    ensures var ask := Request(Levels, SerializeAll(p.codec, p.descend(level, exclude)).value);
      p.send(history, ask).Threw? ==>
        Run(p, height, history, level, exclude) == (Fail(LevelComparisonFailed(p.send(history, ask).error)), history + [ask])
    ensures var ask := Request(Levels, SerializeAll(p.codec, p.descend(level, exclude)).value);
      var reply := p.send(history, ask);
      reply.Replied? && DeserializeAll(p.codec, reply.comparison.missing).Success? ==>
        var leaves := LeafOnly(DeserializeAll(p.codec, reply.comparison.missing).value);
        leaves != [] && SerializeAll(p.codec, leaves).Success? ==>
          var push := Request(Leaves, SerializeAll(p.codec, leaves).value);
          p.send(history + [ask], push).Threw? ==>
            Run(p, height, history, level, exclude) == (Fail(p.send(history + [ask], push).error), history + [ask, push])
  {
    var step := Round(p, history, level, exclude);
    RunStep(p, height, history, level, exclude, step);
    var ask := Request(Levels, SerializeAll(p.codec, p.descend(level, exclude)).value);
    var reply := p.send(history, ask);
    assert step == AfterAsk(p, history, ask, reply);
    if reply.Replied? && DeserializeAll(p.codec, reply.comparison.missing).Success? {
      var leaves := LeafOnly(DeserializeAll(p.codec, reply.comparison.missing).value);
      if leaves != [] && SerializeAll(p.codec, leaves).Success? {
        var push := Request(Leaves, SerializeAll(p.codec, leaves).value);
        if p.send(history + [ask], push).Threw? {
          assert Push(p, history + [ask], leaves) == ([push], Some(p.send(history + [ask], push).error));
          assert step == Stop(Fail(p.send(history + [ask], push).error), [ask, push]);
        }
      }
    }
  }

  /** Every request `initiate` sends over `/leaves` carries leaf nodes only, and at least one. */
  lemma OnlyLeavesPushed(p: Peer, height: nat, history: seq<Request>, level: nat, exclude: seq<Field>)
    requires Bounded(p, height)
    requires Sound(p.codec)
    ensures PushesOnlyLeaves(p.codec, SentAfter(p, height, history, level, exclude))
  {
    RoundsEndBy(p, height);
    forall h: seq<Request>, l: nat, e: seq<Field> ensures PushesOnlyLeaves(p.codec, Rounds(p)(h, l, e).sent) {
      RoundPushesLeaves(p, h, l, e);
    }
    DescentPushesOnlyLeaves(p.codec, Rounds(p), height, history, level, exclude);
  }

  /** The number of `/levels` requests in a list of requests. */
  function CountLevels(reqs: seq<Request>): nat {
    if reqs == [] then 0
    else (if reqs[0].protocol == Levels then 1 else 0) + CountLevels(reqs[1..])
  }

  lemma {:induction false} CountLevelsAppend(a: seq<Request>, b: seq<Request>)
    ensures CountLevels(a + b) == CountLevels(a) + CountLevels(b)
  {
    if a == [] {
      assert a + b == b;
    } else {
      assert (a + b)[0] == a[0] && (a + b)[1..] == a[1..] + b;
      CountLevelsAppend(a[1..], b);
    }
  }

  /** One round sends at most one `/levels` request, and none when it finds nothing to compare. */
  lemma RoundCountLevels(p: Peer, history: seq<Request>, level: nat, exclude: seq<Field>)
    ensures var sent := Round(p, history, level, exclude).sent;
      CountLevels(sent) <= (if p.descend(level, exclude) == [] then 0 else 1)
  {
    RoundShape(p, history, level, exclude);
    var step := Round(p, history, level, exclude);
    var sent := step.sent;
    if sent != [] {
      assert p.descend(level, exclude) != [] by {
        assert step != Stop(Pass, []);
      }
      var rest := sent[1..];
      assert CountLevels(sent) == 1 + CountLevels(rest);
      if |sent| == 2 {
        assert rest[0] == sent[1] && rest[1..] == [];
        assert CountLevels(rest) == 0;
      } else {
        assert rest == [];
      }
    }
  }

  /**
   * Each level is compared at most once, so a descent starting at `level`
   * sends at most `height - level` `/levels` requests before it ends.
   */
  lemma LevelsBound(p: Peer, height: nat, history: seq<Request>, level: nat, exclude: seq<Field>)
    requires Bounded(p, height)
    requires level <= height
    ensures CountLevels(SentAfter(p, height, history, level, exclude)) <= height - level
  {
    RoundsEndBy(p, height);
    forall h: seq<Request>, l: nat, e: seq<Field> ensures CountLevels(Rounds(p)(h, l, e).sent) <= (if l < height then 1 else 0) {
      RoundCountLevels(p, h, l, e);
    }
    DescentCountLevels(Rounds(p), height, history, level, exclude);
  }
}
