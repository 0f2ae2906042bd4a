/**
 * The karma ledger of src/views/community.mjs. `countPoints` walks the
 * stored messages in timestamp order, remembers who first submitted each
 * (normalised) URL, and gives one point per message to that first
 * submitter; the page then lists every allowlisted address with its karma,
 * highest first.
 *
 * URL normalisation and signature recovery are collaborators whose code is
 * not part of this model; they are the functions of an `Identity`.
 */
module Community {
  import opened Wrappers
  import opened Messages
  import opened Sorting

  /** A row of the ranking: `{ address, karma }`. */
  datatype Entry = Entry(address: string, karma: int)

  /** `normalizeUrl` and `id.ecrecover`. */
  datatype Identity = Identity(normalize: string -> string, signer: Message -> string)

  /** The key of `messages.sort((a, b) => a.timestamp - b.timestamp)`. */
  function Timestamp(m: Message): int { m.timestamp }

  /** The key of `list.sort((a, b) => b.karma - a.karma)`: higher karma first. */
  function Rank(e: Entry): int { -e.karma }

  function Karma(e: Entry): int { e.karma }

  /** `normalizeUrl(message.href)`. */
  function UrlOf(id: Identity, m: Message): string { id.normalize(m.href) }

  /** The `submissions` map after the messages `ms`. */
  function Submissions(id: Identity, ms: seq<Message>): map<string, string> {
    if ms == [] then map[]
    else
      var prev := Submissions(id, ms[..|ms| - 1]);
      var m := ms[|ms| - 1];
      if UrlOf(id, m) in prev then prev else prev[UrlOf(id, m) := id.signer(m)]
  }

  /** The address a message earns its point for, given the submissions before it. */
  function Credit(id: Identity, submissions: map<string, string>, m: Message): string {
    if UrlOf(id, m) in submissions then submissions[UrlOf(id, m)] else id.signer(m)
  }

  /** The address credited for each message of `ms`, in order. */
  function Credits(id: Identity, ms: seq<Message>): (r: seq<string>)
    ensures |r| == |ms|
  {
    if ms == [] then []
    else Credits(id, ms[..|ms| - 1]) + [Credit(id, Submissions(id, ms[..|ms| - 1]), ms[|ms| - 1])]
  }

  /** The addresses of `c` in order of first appearance: `Object.keys(points)`. */
  function Order(c: seq<string>): (r: seq<string>)
  {
    if c == [] then []
    else
      var o := Order(c[..|c| - 1]);
      if c[|c| - 1] in o then o else o + [c[|c| - 1]]
  }

  /** `points[address]`: the messages credited to `address`. */
  function Points(c: seq<string>, address: string): nat {
    multiset(c)[address]
  }

  /** The `points` object after crediting the addresses `c` in order, one point each. */
  function PointsMap(c: seq<string>): map<string, int> {
    if c == [] then map[]
    else
      var m := PointsMap(c[..|c| - 1]);
      var x := c[|c| - 1];
      if x in m then m[x := m[x] + 1] else m[x := 1]
  }

  lemma PointsMapStep(c: seq<string>, x: string)
    ensures PointsMap(c + [x]) == if x in PointsMap(c) then PointsMap(c)[x := PointsMap(c)[x] + 1] else PointsMap(c)[x := 1]
  {
    assert (c + [x])[..|c|] == c;
  }

  /** `points` holds exactly the credited addresses, each with its number of credits. */
  lemma {:induction false} PointsMapCounts(c: seq<string>)
    ensures forall a :: a in PointsMap(c) <==> a in c
    ensures forall a :: a in PointsMap(c) ==> PointsMap(c)[a] == Points(c, a)
  {
    if c != [] {
      var p := c[..|c| - 1];
      var x := c[|c| - 1];
      assert c == p + [x];
      PointsMapCounts(p);
      forall a ensures a in PointsMap(c) ==> PointsMap(c)[a] == Points(c, a) {
        assert Points(c, a) == Points(p, a) + (if a == x then 1 else 0);
      }
    }
  }

  /** The entries for the addresses `keys`, with their points in `c`. */
  function Over(keys: seq<string>, c: seq<string>): (r: seq<Entry>)
    ensures |r| == |keys|
  {
    seq(|keys|, i requires 0 <= i < |keys| => Entry(keys[i], Points(c, keys[i])))
  }

  lemma OverAppend(keys: seq<string>, c: seq<string>, x: string)
    ensures Over(keys + [x], c) == Over(keys, c) + [Entry(x, Points(c, x))]
  {
    var l, r := Over(keys + [x], c), Over(keys, c) + [Entry(x, Points(c, x))];
    forall i | 0 <= i < |l| ensures l[i] == r[i] {
      if i < |keys| {
        assert (keys + [x])[i] == keys[i];
      }
    }
  }

  /** `list` before sorting: one entry per credited address, in `Object.keys` order. */
  function Tally(c: seq<string>): seq<Entry> {
    Over(Order(c), c)
  }

  /** What `countPoints(messages)` returns. */
  function Ranking(id: Identity, messages: seq<Message>): seq<Entry> {
    SortBy(Tally(Credits(id, Chronological(messages))), Rank)
  }

  /** The ledger after one more message: its credit and the submissions it leaves. */
  lemma Step(id: Identity, ms: seq<Message>, i: nat)
    requires i < |ms|
    ensures Credits(id, ms[..i + 1]) == Credits(id, ms[..i]) + [Credit(id, Submissions(id, ms[..i]), ms[i])]
    ensures var prev := Submissions(id, ms[..i]);
      Submissions(id, ms[..i + 1]) == if UrlOf(id, ms[i]) in prev then prev else prev[UrlOf(id, ms[i]) := id.signer(ms[i])]
  {
    assert ms[..i + 1][..i] == ms[..i] && ms[..i + 1][i] == ms[i];
  }

  /** `Object.keys(points)` lists each credited address once. */
  lemma {:induction false} OrderKeys(c: seq<string>)
    ensures forall x :: x in Order(c) <==> x in c
    ensures Distinct(Order(c))
  {
    if c != [] {
      var p := c[..|c| - 1];
      assert c == p + [c[|c| - 1]];
      OrderKeys(p);
    }
  }

  lemma OrderStep(c: seq<string>, x: string)
    ensures Order(c + [x]) == if x in Order(c) then Order(c) else Order(c) + [x]
  {
    assert (c + [x])[..|c|] == c;
  }

  /** An address has points exactly when it is among the keys. */
  lemma KeyIffPoints(c: seq<string>, x: string)
    ensures x in PointsMap(c) <==> x in Order(c)
  {
    PointsMapCounts(c);
    OrderKeys(c);
  }

  /** A key's value in `points` is its number of credits. */
  lemma KeyPoints(c: seq<string>, x: string)
    requires x in Order(c)
    ensures x in PointsMap(c) && PointsMap(c)[x] == Points(c, x)
  {
    PointsMapCounts(c);
    OrderKeys(c);
  }

  /**
   * `add(points, address)`: one more point for `address`, which becomes a
   * key the first time. `keys` is the insertion order of `points`, which
   * `Object.keys` follows.
   */
  method Add(points: map<string, int>, keys: seq<string>, ghost credited: seq<string>, address: string)
    returns (points': map<string, int>, keys': seq<string>)
    requires points == PointsMap(credited) && keys == Order(credited)
    ensures points' == PointsMap(credited + [address])
    ensures keys' == Order(credited + [address])
  {
    OrderStep(credited, address);
    PointsMapStep(credited, address);
    KeyIffPoints(credited, address);
    if address in points {
      points' := points[address := points[address] + 1];
      keys' := keys;
    } else {
      points' := points[address := 1];
      keys' := keys + [address];
    }
  }

  /**
   * The `forEach` of `countPoints` over the messages in timestamp order:
   * the `points` object, and its keys in insertion order.
   */
  method Attribute(id: Identity, ms: seq<Message>) returns (keys: seq<string>, points: map<string, int>)
    ensures keys == Order(Credits(id, ms))
    ensures points == PointsMap(Credits(id, ms))
  {
    var submissions: map<string, string> := map[];
    points := map[];
    keys := [];
    ghost var credited: seq<string> := [];
    var i := 0;
    while i < |ms|
      invariant 0 <= i <= |ms|
      invariant submissions == Submissions(id, ms[..i])
      invariant credited == Credits(id, ms[..i])
      invariant keys == Order(credited)
      invariant points == PointsMap(credited)
    {
      Step(id, ms, i);
      var m := ms[i];
      var url := id.normalize(m.href);
      var address := id.signer(m);
      var credit := address;
      if url !in submissions {
        submissions := submissions[url := address];
      } else {
        credit := submissions[url];
      }
      points, keys := Add(points, keys, credited, credit);
      credited := credited + [credit];
      i := i + 1;
    }
    assert ms[..i] == ms;
  }

  /** `countPoints(messages)`. */
  method CountPoints(id: Identity, messages: seq<Message>) returns (list: seq<Entry>)
    ensures list == Ranking(id, messages)
  {
    var ms := SortBy(messages, Timestamp);
    assert ms == Chronological(messages);
    var keys, points := Attribute(id, ms);
    ghost var credited := Credits(id, ms);
    list := [];
    var j := 0;
    assert keys[..0] == [];
    while j < |keys|
      invariant 0 <= j <= |keys|
      invariant list == Over(keys[..j], credited)
    {
      KeyPoints(credited, keys[j]);
      OverAppend(keys[..j], credited, keys[j]);
      assert keys[..j + 1] == keys[..j] + [keys[j]];
      list := list + [Entry(keys[j], points[keys[j]])];
      j := j + 1;
    }
    assert keys[..j] == keys;
    list := SortBy(list, Rank);
  }

  // The allowlist merge of the page's default export

  /** `toLowerCase` on the ASCII letters. */
  function LowerChar(ch: char): char {
    if 'A' <= ch <= 'Z' then (ch as int + 32) as char else ch
  }

  function Lower(s: string): (r: string)
    ensures |r| == |s|
  {
    seq(|s|, i requires 0 <= i < |s| => LowerChar(s[i]))
  }

  /** `a.toLowerCase() === b.toLowerCase()`. */
  predicate SameAddress(a: string, b: string) {
    Lower(a) == Lower(b)
  }

  /** `users.find((user) => user.address.toLowerCase() === address.toLowerCase())`. */
  function Find(users: seq<Entry>, address: string): (r: Option<Entry>)
    ensures r.Some? ==> r.value in users && SameAddress(r.value.address, address)
  {
    if users == [] then None
    else if SameAddress(users[0].address, address) then Some(users[0])
    else Find(users[1..], address)
  }

  /** `foundUser ? foundUser.karma : "0"`, read back by `parseInt`. */
  function KarmaOf(users: seq<Entry>, address: string): (r: int)
  {
    match Find(users, address)
    case Some(u) => u.karma
    case None => 0
  }

  /** `combinedUsers` before sorting: every allowlisted address, in allowlist order, with its karma. */
  function Merged(users: seq<Entry>, allowList: seq<string>): (r: seq<Entry>)
    ensures |r| == |allowList|
  {
    seq(|allowList|, i requires 0 <= i < |allowList| => Entry(allowList[i], KarmaOf(users, allowList[i])))
  }

  /**
   * The loop over the allowlist and the sort that follows it:
   * `combinedUsers.sort((a, b) => parseInt(b.karma) - parseInt(a.karma))`.
   */
  method Combine(users: seq<Entry>, allowList: seq<string>) returns (combined: seq<Entry>)
    ensures combined == SortBy(Merged(users, allowList), Rank)
  {
    combined := [];
    var i := 0;
    while i < |allowList|
      invariant 0 <= i <= |allowList|
      invariant combined == Merged(users, allowList)[..i]
    {
      var address := allowList[i];
      var foundUser := Find(users, address);
      var karma := if foundUser.Some? then foundUser.value.karma else 0;
      combined := combined + [Entry(address, karma)];
      i := i + 1;
    }
    assert Merged(users, allowList)[..i] == Merged(users, allowList);
    combined := SortBy(combined, Rank);
  }

  /** The page's ranking: `countPoints` over the stored messages, merged with the allowlist. */
  method Leaderboard(id: Identity, messages: seq<Message>, allowList: seq<string>) returns (combined: seq<Entry>)
    ensures combined == SortBy(Merged(Ranking(id, messages), allowList), Rank)
  {
    var users := CountPoints(id, messages);
    combined := Combine(users, allowList);
  }

  // Properties of `countPoints`

  /** Message `j` is the first of `ms` about its URL. */
  ghost predicate FirstOfUrl(id: Identity, ms: seq<Message>, j: int) {
    0 <= j < |ms| && forall k :: 0 <= k < j ==> UrlOf(id, ms[k]) != UrlOf(id, ms[j])
  }

  lemma FirstOfUrlPrefix(id: Identity, ms: seq<Message>, n: nat, j: int)
    requires 0 <= j < n <= |ms|
    ensures FirstOfUrl(id, ms[..n], j) <==> FirstOfUrl(id, ms, j)
  {
    assert forall k :: 0 <= k < n ==> ms[..n][k] == ms[k];
  }

  /** Some message at or before `i` is the first about `i`'s URL. */
  lemma FirstIndex(id: Identity, ms: seq<Message>, i: int) returns (j: int)
    requires 0 <= i < |ms|
    ensures 0 <= j <= i && FirstOfUrl(id, ms, j) && UrlOf(id, ms[j]) == UrlOf(id, ms[i])
  {
    j := 0;
    while UrlOf(id, ms[j]) != UrlOf(id, ms[i])
      invariant 0 <= j <= i
      invariant forall k :: 0 <= k < j ==> UrlOf(id, ms[k]) != UrlOf(id, ms[i])
      decreases i - j
    {
      j := j + 1;
    }
  }

  /** The URLs the messages `ms` are about. */
  function Urls(id: Identity, ms: seq<Message>): set<string> {
    set j | 0 <= j < |ms| :: UrlOf(id, ms[j])
  }

  /** `submissions` holds a URL exactly when some message was about it. */
  lemma {:induction false} SubmissionsDomain(id: Identity, ms: seq<Message>)
    ensures Submissions(id, ms).Keys == Urls(id, ms)
  {
    if ms != [] {
      var n := |ms| - 1;
      var p := ms[..n];
      SubmissionsDomain(id, p);
      assert Urls(id, ms) == Urls(id, p) + {UrlOf(id, ms[n])} by {
        forall url | url in Urls(id, ms) ensures url in Urls(id, p) + {UrlOf(id, ms[n])} {
          var j :| 0 <= j < |ms| && UrlOf(id, ms[j]) == url;
          if j < n {
            assert p[j] == ms[j];
          }
        }
        forall url | url in Urls(id, p) ensures url in Urls(id, ms) {
          var j :| 0 <= j < |p| && UrlOf(id, p[j]) == url;
          assert p[j] == ms[j];
        }
      }
    }
  }

  /** The URL of a message is not among those of the messages before it exactly when it is the first about it. */
  lemma FirstNotSubmitted(id: Identity, ms: seq<Message>, j: int)
    requires 0 <= j < |ms|
    ensures FirstOfUrl(id, ms, j) <==> UrlOf(id, ms[j]) !in Submissions(id, ms[..j])
  {
    SubmissionsDomain(id, ms[..j]);
    assert forall k :: 0 <= k < j ==> ms[..j][k] == ms[k];
    if UrlOf(id, ms[j]) in Urls(id, ms[..j]) {
      var k :| 0 <= k < j && UrlOf(id, ms[..j][k]) == UrlOf(id, ms[j]);
      assert UrlOf(id, ms[k]) == UrlOf(id, ms[j]);
    }
  }

  /** `submissions` maps the URL of the first message about it to that message's signer. */
  lemma {:induction false} SubmissionsFirst(id: Identity, ms: seq<Message>)
    ensures forall j :: FirstOfUrl(id, ms, j) ==>
      UrlOf(id, ms[j]) in Submissions(id, ms) && Submissions(id, ms)[UrlOf(id, ms[j])] == id.signer(ms[j])
  {
    if ms != [] {
      var n := |ms| - 1;
      var p := ms[..n];
      SubmissionsFirst(id, p);
      forall j | FirstOfUrl(id, ms, j)
        ensures UrlOf(id, ms[j]) in Submissions(id, ms) && Submissions(id, ms)[UrlOf(id, ms[j])] == id.signer(ms[j])
      {
        if j < n {
          FirstOfUrlPrefix(id, ms, n, j);
          assert p[j] == ms[j];
        } else {
          FirstNotSubmitted(id, ms, n);
        }
      }
    }
  }

  /**
   * First-submitter attribution: every message about a URL, the first one
   * included, credits the signer of the first message about that URL.
   */
  lemma FirstSubmitterCredited(id: Identity, ms: seq<Message>)
    ensures forall i, j :: 0 <= j <= i < |ms| && FirstOfUrl(id, ms, j) && UrlOf(id, ms[j]) == UrlOf(id, ms[i]) ==>
      Credits(id, ms)[i] == id.signer(ms[j])
  {
    forall i, j | 0 <= j <= i < |ms| && FirstOfUrl(id, ms, j) && UrlOf(id, ms[j]) == UrlOf(id, ms[i])
      ensures Credits(id, ms)[i] == id.signer(ms[j])
    {
      CreditedTo(id, ms, i, j);
    }
  }

  /** Message `i` credits the signer of message `j`, the first about the same URL. */
  lemma CreditedTo(id: Identity, ms: seq<Message>, i: int, j: int)
    requires 0 <= j <= i < |ms| && FirstOfUrl(id, ms, j) && UrlOf(id, ms[j]) == UrlOf(id, ms[i])
    ensures Credits(id, ms)[i] == id.signer(ms[j])
  {
    CreditAt(id, ms, i);
    if j < i {
      FirstOfUrlPrefix(id, ms, i, j);
      SubmissionsFirst(id, ms[..i]);
      assert ms[..i][j] == ms[j];
    } else {
      FirstNotSubmitted(id, ms, i);
    }
  }

  /** Message `i` is credited according to the submissions of the messages before it. */
  lemma {:induction false} CreditAt(id: Identity, ms: seq<Message>, i: int)
    requires 0 <= i < |ms|
    ensures Credits(id, ms)[i] == Credit(id, Submissions(id, ms[..i]), ms[i])
    decreases |ms|
  {
    var n := |ms| - 1;
    if i < n {
      CreditAt(id, ms[..n], i);
      assert ms[..n][..i] == ms[..i] && ms[..n][i] == ms[i];
    }
  }

  /** Message `i` of `ms` credits the signer of the first message about its URL. */
  ghost predicate CreditsFirstSubmitter(id: Identity, ms: seq<Message>, i: int)
    requires 0 <= i < |ms|
  {
    exists j :: 0 <= j <= i && FirstOfUrl(id, ms, j) && UrlOf(id, ms[j]) == UrlOf(id, ms[i]) && Credits(id, ms)[i] == id.signer(ms[j])
  }

  /** Every point goes to the first submitter of the URL of the message that earned it. */
  lemma CreditedAreFirstSubmitters(id: Identity, ms: seq<Message>)
    ensures forall i :: 0 <= i < |ms| ==> CreditsFirstSubmitter(id, ms, i)
  {
    forall i | 0 <= i < |ms| ensures CreditsFirstSubmitter(id, ms, i) {
      var j := FirstIndex(id, ms, i);
      CreditedTo(id, ms, i, j);
    }
  }

  lemma {:induction false} SumOverEmpty(keys: seq<string>)
    ensures SumOf(Over(keys, []), Karma) == 0
  {
    if keys != [] {
      assert Over(keys, [])[1..] == Over(keys[1..], []);
      SumOverEmpty(keys[1..]);
    }
  }

  lemma {:induction false} SumOverAppend(keys: seq<string>, c: seq<string>, x: string)
    ensures SumOf(Over(keys, c + [x]), Karma) == SumOf(Over(keys, c), Karma) + multiset(keys)[x]
  {
    if keys != [] {
      assert Over(keys, c + [x])[1..] == Over(keys[1..], c + [x]);
      assert Over(keys, c)[1..] == Over(keys[1..], c);
      SumOverAppend(keys[1..], c, x);
      assert keys == [keys[0]] + keys[1..];
      assert Points(c + [x], keys[0]) == Points(c, keys[0]) + (if keys[0] == x then 1 else 0);
    }
  }

  /** One point per credit: the karma of distinct keys covering every credit adds up to the number of credits. */
  lemma {:induction false} TallySum(keys: seq<string>, c: seq<string>)
    requires Distinct(keys)
    requires forall x :: x in c ==> x in keys
    ensures SumOf(Over(keys, c), Karma) == |c|
  {
    if c == [] {
      SumOverEmpty(keys);
    } else {
      var p := c[..|c| - 1];
      var x := c[|c| - 1];
      assert c == p + [x];
      assert forall y :: y in p ==> y in c;
      TallySum(keys, p);
      SumOverAppend(keys, p, x);
      DistinctCount(keys, x);
      assert x in c && x in keys;
      assert x in multiset(keys);
    }
  }

  /** Point conservation: every message adds exactly one point, so the karma in the ranking adds up to the number of messages. */
  lemma TotalKarma(id: Identity, messages: seq<Message>)
    ensures SumOf(Ranking(id, messages), Karma) == |messages|
  {
    var c := Credits(id, Chronological(messages));
    SortBySum(Tally(c), Rank, Karma);
    OrderKeys(c);
    TallySum(Order(c), c);
  }

  /** The ranking is ordered by non-increasing karma. */
  lemma RankingSorted(id: Identity, messages: seq<Message>)
    ensures var r := Ranking(id, messages);
      forall i, j :: 0 <= i < j < |r| ==> r[i].karma >= r[j].karma
  {
    SortBySorted(Tally(Credits(id, Chronological(messages))), Rank);
  }

  /** The messages in the order `countPoints` processes them. */
  function Chronological(messages: seq<Message>): seq<Message> {
    SortBy(messages, Timestamp)
  }

  /**
   * `countPoints` walks the messages in ascending timestamp order; it sees
   * each message once, and messages with equal timestamps in the order they
   * were given.
   */
  lemma ProcessedInTimeOrder(messages: seq<Message>, t: int)
    ensures var ms := Chronological(messages);
      && (forall i, j :: 0 <= i < j < |ms| ==> ms[i].timestamp <= ms[j].timestamp)
      && multiset(ms) == multiset(messages)
      && WithKey(ms, Timestamp, t) == WithKey(messages, Timestamp, t)
  {
    SortBySorted(messages, Timestamp);
    SortByPermutes(messages, Timestamp);
    SortByStable(messages, Timestamp, t);
  }

  /** A ranked entry is a credited address with its number of credits. */
  lemma RankingMember(id: Identity, messages: seq<Message>, e: Entry)
    requires e in Ranking(id, messages)
    ensures var c := Credits(id, Chronological(messages));
      e.address in c && e.karma == Points(c, e.address)
  {
    var c := Credits(id, Chronological(messages));
    var t := Tally(c);
    SortByPermutes(t, Rank);
    OrderKeys(c);
    assert e in multiset(Ranking(id, messages));
    assert e in t;
  }

  /** Every ranked address has as much karma as messages credited to it, so at least one point. */
  lemma RankingKarma(id: Identity, messages: seq<Message>)
    ensures var c := Credits(id, Chronological(messages));
      forall e :: e in Ranking(id, messages) ==> e.karma >= 1 && e.karma == Points(c, e.address)
  {
    forall e | e in Ranking(id, messages)
      ensures e.karma >= 1 && e.karma == Points(Credits(id, Chronological(messages)), e.address)
    {
      RankingMember(id, messages, e);
    }
  }

  /** Message `j` is the first about its URL and `address` signed it. */
  ghost predicate FirstSubmitter(id: Identity, ms: seq<Message>, address: string) {
    exists j :: FirstOfUrl(id, ms, j) && address == id.signer(ms[j])
  }

  /** Only first submitters are ranked. */
  lemma RankingOnlyFirstSubmitters(id: Identity, messages: seq<Message>)
    ensures forall e :: e in Ranking(id, messages) ==> FirstSubmitter(id, Chronological(messages), e.address)
  {
    var ms := Chronological(messages);
    var c := Credits(id, ms);
    CreditedAreFirstSubmitters(id, ms);
    forall e | e in Ranking(id, messages) ensures FirstSubmitter(id, ms, e.address) {
      RankingMember(id, messages, e);
      var i :| 0 <= i < |c| && c[i] == e.address;
      assert CreditsFirstSubmitter(id, ms, i);
    }
  }

  /** Every first submitter is ranked. */
  lemma RankingAllFirstSubmitters(id: Identity, messages: seq<Message>)
    ensures forall j :: FirstOfUrl(id, Chronological(messages), j) ==>
      exists e :: e in Ranking(id, messages) && e.address == id.signer(Chronological(messages)[j])
  {
    var ms := Chronological(messages);
    var c := Credits(id, ms);
    var o := Order(c);
    var t := Tally(c);
    var r := Ranking(id, messages);
    SortByPermutes(t, Rank);
    OrderKeys(c);
    forall j | FirstOfUrl(id, ms, j) ensures exists e :: e in r && e.address == id.signer(ms[j]) {
      CreditedTo(id, ms, j, j);
      assert c[j] in o;
      var q :| 0 <= q < |o| && o[q] == c[j];
      assert t[q] in multiset(t);
      assert t[q] in r;
    }
  }

  /** The tally has one entry per address. */
  lemma TallyDistinct(c: seq<string>)
    ensures forall p, q :: 0 <= p < |Tally(c)| && 0 <= q < |Tally(c)| && p != q ==> Tally(c)[p].address != Tally(c)[q].address
    ensures Distinct(Tally(c))
  {
    OrderKeys(c);
  }

  /** Where an element of a permuted sequence sits in the original. */
  lemma IndexIn(t: seq<Entry>, x: Entry) returns (p: nat)
    requires x in multiset(t)
    ensures p < |t| && t[p] == x
  {
    p :| p < |t| && t[p] == x;
  }

  /** No address is ranked twice. */
  lemma RankingOnce(id: Identity, messages: seq<Message>)
    ensures var r := Ranking(id, messages);
      forall i, k :: 0 <= i < k < |r| ==> r[i].address != r[k].address
  {
    var c := Credits(id, Chronological(messages));
    var t := Tally(c);
    var r := Ranking(id, messages);
    SortByPermutes(t, Rank);
    TallyDistinct(c);
    DistinctPermutation(t, r);
    forall i, k | 0 <= i < k < |r| ensures r[i].address != r[k].address {
      var p := IndexIn(t, r[i]);
      var q := IndexIn(t, r[k]);
      assert p != q;
    }
  }
  // Properties of the allowlist merge

  /** `find` returns the first user whose address matches case-insensitively, and nothing only when none does. */
  lemma {:induction false} FindFirst(users: seq<Entry>, address: string)
    ensures Find(users, address).Some? ==>
      exists i :: 0 <= i < |users| && users[i] == Find(users, address).value && SameAddress(users[i].address, address)
        && forall k :: 0 <= k < i ==> !SameAddress(users[k].address, address)
    ensures Find(users, address).None? <==> forall i :: 0 <= i < |users| ==> !SameAddress(users[i].address, address)
  {
    if users != [] && !SameAddress(users[0].address, address) {
      FindFirst(users[1..], address);
      assert forall i :: 1 <= i < |users| ==> users[i] == users[1..][i - 1];
      if Find(users, address).Some? {
        var i :| 0 <= i < |users[1..]| && users[1..][i] == Find(users, address).value && SameAddress(users[1..][i].address, address)
          && forall k :: 0 <= k < i ==> !SameAddress(users[1..][k].address, address);
        assert users[i + 1] == users[1..][i];
        forall k | 0 <= k < i + 1 ensures !SameAddress(users[k].address, address) {
          if k > 0 {
            assert users[k] == users[1..][k - 1];
          }
        }
      }
    }
  }

  /**
   * Every allowlisted address is listed, with the karma of its
   * case-insensitive match among the ranked users, or 0 without one; nothing
   * else is listed; and the list is ordered by non-increasing karma.
   */
  lemma CombinedEntries(users: seq<Entry>, allowList: seq<string>)
    ensures var r := SortBy(Merged(users, allowList), Rank);
      && multiset(r) == multiset(Merged(users, allowList))
      && (forall i :: 0 <= i < |allowList| ==> Entry(allowList[i], KarmaOf(users, allowList[i])) in r)
      && (forall e :: e in r ==> e.address in allowList && e.karma == KarmaOf(users, e.address))
      && (forall i, j :: 0 <= i < j < |r| ==> r[i].karma >= r[j].karma)
  {
    var m := Merged(users, allowList);
    var r := SortBy(m, Rank);
    SortByPermutes(m, Rank);
    SortBySorted(m, Rank);
    forall i | 0 <= i < |allowList| ensures Entry(allowList[i], KarmaOf(users, allowList[i])) in r {
      assert m[i] in multiset(m);
    }
    forall e | e in r ensures e.address in allowList && e.karma == KarmaOf(users, e.address) {
      assert e in multiset(m);
    }
  }

  /** An address that occurs once in the allowlist occurs once in the merged list. */
  lemma CombinedOnce(users: seq<Entry>, allowList: seq<string>)
    requires Distinct(allowList)
    ensures var r := SortBy(Merged(users, allowList), Rank);
      forall i, j :: 0 <= i < j < |r| ==> r[i].address != r[j].address
  {
    var m := Merged(users, allowList);
    var r := SortBy(m, Rank);
    SortByPermutes(m, Rank);
    assert Distinct(m);
    DistinctPermutation(m, r);
    forall i, j | 0 <= i < j < |r| ensures r[i].address != r[j].address {
      assert r[i] in multiset(m) && r[j] in multiset(m);
      var p :| 0 <= p < |m| && m[p] == r[i];
      var q :| 0 <= q < |m| && m[q] == r[j];
      assert p != q;
    }
  }

  /**
   * On the page, an allowlisted address shows karma 0 exactly when no
   * ranked address matches it case-insensitively: every ranked address has
   * at least one point.
   */
  lemma ZeroKarmaIff(id: Identity, messages: seq<Message>, address: string)
    ensures var users := Ranking(id, messages);
      KarmaOf(users, address) == 0 <==> forall e :: e in users ==> !SameAddress(e.address, address)
  {
    var users := Ranking(id, messages);
    RankingKarma(id, messages);
    FindFirst(users, address);
    if Find(users, address).Some? {
      var i :| 0 <= i < |users| && users[i] == Find(users, address).value && SameAddress(users[i].address, address);
      assert users[i] in users;
    } else {
      forall e | e in users ensures !SameAddress(e.address, address) {
        var i :| 0 <= i < |users| && users[i] == e;
      }
    }
  }
}
