/**
 * The link and text helpers of src/views/components/row.mjs. A story's
 * link is modelled by the two parts these helpers look at: the hostname
 * the `URL` parser finds and the query parameters.
 */
module Row {
  import opened Wrappers
  import opened Text

  // extractDomain

  /** `parts.slice(-2)`: the last two elements, or all of them when there are fewer. */
  function LastTwo<T>(parts: seq<T>): (r: seq<T>)
    ensures |r| == if |parts| < 2 then |parts| else 2
    ensures r == parts[|parts| - |r|..]
  {
    if |parts| < 2 then parts else parts[|parts| - 2..]
  }

  /** `extractDomain(link)`, given the link's hostname: its last two dot-separated labels. */
  function ExtractDomain(hostname: string): string {
    Join(LastTwo(Split(hostname, '.')), '.')
  }

  /**
   * The domain is the longest suffix of the hostname with at most one dot:
   * a suffix, with one dot exactly when the hostname has one, and cut
   * right after a dot when it is shorter than the hostname.
   */
  lemma ExtractDomainSuffix(hostname: string)
    ensures var r := ExtractDomain(hostname);
      && EndsWith(hostname, r)
      && Occurrences(r, '.') == (if Occurrences(hostname, '.') == 0 then 0 else 1)
      && (|r| < |hostname| ==> hostname[|hostname| - |r| - 1] == '.')
  {
    var parts := Split(hostname, '.');
    SplitPieces(hostname, '.');
    JoinSplit(hostname, '.');
    var n := |parts|;
    if n >= 2 {
      var last := parts[n - 2..];
      assert last == [parts[n - 2]] + [parts[n - 1]];
      var r := Join(last, '.');
      assert last[0] == parts[n - 2] && last[1..] == [parts[n - 1]];
      assert Join(last[1..], '.') == parts[n - 1];
      assert r == last[0] + ['.'] + Join(last[1..], '.');
      assert r == parts[n - 2] + ['.'] + parts[n - 1];
      NoOccurrences(parts[n - 2], '.');
      NoOccurrences(parts[n - 1], '.');
      OccurrencesAppend(parts[n - 2] + ['.'], parts[n - 1], '.');
      OccurrencesAppend(parts[n - 2], ['.'], '.');
      if n > 2 {
        var first := parts[..n - 2];
        assert parts == first + last;
        JoinAppend(first, last, '.');
        assert hostname == Join(first, '.') + ['.'] + r;
        assert hostname[|hostname| - |r|..] == r;
      }
    }
  }

  // addOrUpdateReferrer

  /** One `name=value` pair of a query string. */
  datatype Param = Param(name: string, value: string)

  /** A parsed link: its hostname and its query parameters, in order. */
  datatype Link = Link(hostname: string, params: seq<Param>)

  /** The pairs of `ps` named `name`, in order. */
  function Named(ps: seq<Param>, name: string): seq<Param> {
    if ps == [] then []
    else (if ps[0].name == name then [ps[0]] else []) + Named(ps[1..], name)
  }

  /** `ps` without the pairs named `name`. */
  function Without(ps: seq<Param>, name: string): seq<Param> {
    if ps == [] then []
    else (if ps[0].name == name then [] else [ps[0]]) + Without(ps[1..], name)
  }

  /**
   * `url.searchParams.set(name, value)`: the first pair named `name` takes
   * the value and the later ones are removed; without one, the pair is
   * appended.
   */
  function SetParam(ps: seq<Param>, name: string, value: string): seq<Param> {
    if ps == [] then [Param(name, value)]
    else if ps[0].name == name then [Param(name, value)] + Without(ps[1..], name)
    else [ps[0]] + SetParam(ps[1..], name, value)
  }

  /** The parameter a hostname's suffix calls for, the suffixes checked in the source's order. */
  function ReferrerParam(hostname: string): Option<string> {
    if EndsWith(hostname, "mirror.xyz") then Some("referrerAddress")
    else if EndsWith(hostname, "paragraph.xyz") || EndsWith(hostname, "zora.co") || EndsWith(hostname, "manifold.xyz") then Some("referrer")
    else if EndsWith(hostname, "foundation.app") then Some("ref")
    else None
  }

  /** JavaScript truthiness of the `address` argument: absent and empty are falsy. */
  predicate Truthy(address: Option<string>) {
    address.Some? && address.value != ""
  }

  /** `addOrUpdateReferrer(link, address)`. */
  function AddOrUpdateReferrer(link: Link, address: Option<string>): (r: Link)
    ensures !Truthy(address) ==> r == link
    ensures r.hostname == link.hostname
  {
    if !Truthy(address) then link
    else match ReferrerParam(link.hostname)
      case None => link
      case Some(name) => link.(params := SetParam(link.params, name, address.value))
  }

  lemma {:induction false} NamedAppend(a: seq<Param>, b: seq<Param>, n: string)
    ensures Named(a + b, n) == Named(a, n) + Named(b, n)
  {
    if a == [] {
      assert a + b == b;
    } else {
      var head := if a[0].name == n then [a[0]] else [];
      assert (a + b)[0] == a[0] && (a + b)[1..] == a[1..] + b;
      assert Named(a + b, n) == head + Named(a[1..] + b, n);
      NamedAppend(a[1..], b, n);
      assert head + (Named(a[1..], n) + Named(b, n)) == (head + Named(a[1..], n)) + Named(b, n);
    }
  }

  /** Removing the pairs named `name` leaves none of them and every other pair. */
  lemma {:induction false} WithoutNamed(ps: seq<Param>, name: string, n: string)
    ensures Named(Without(ps, name), n) == if n == name then [] else Named(ps, n)
  {
    if ps != [] {
      WithoutNamed(ps[1..], name, n);
      var head := if ps[0].name == name then [] else [ps[0]];
      NamedAppend(head, Without(ps[1..], name), n);
    }
  }

  /**
   * After `set`, `name` has exactly the one pair with the new value, and
   * the pairs of every other name are as they were, in order.
   */
  lemma {:induction false} SetParamNamed(ps: seq<Param>, name: string, value: string, n: string)
    ensures Named(SetParam(ps, name, value), n) == if n == name then [Param(name, value)] else Named(ps, n)
  {
    if ps == [] {
    } else if ps[0].name == name {
      WithoutNamed(ps[1..], name, n);
      NamedAppend([Param(name, value)], Without(ps[1..], name), n);
    } else {
      SetParamNamed(ps[1..], name, value, n);
      NamedAppend([ps[0]], SetParam(ps[1..], name, value), n);
    }
  }

  /**
   * A truthy address sets the one parameter the hostname's suffix calls
   * for, to the address, and leaves every other parameter alone; a
   * hostname with none of the suffixes keeps its link unchanged.
   */
  lemma ReferrerSet(link: Link, address: Option<string>, n: string)
    requires Truthy(address)
    ensures var r := AddOrUpdateReferrer(link, address);
      match ReferrerParam(link.hostname)
      case None => r == link
      case Some(name) =>
        Named(r.params, n) == if n == name then [Param(name, address.value)] else Named(link.params, n)
  {
    if ReferrerParam(link.hostname).Some? {
      SetParamNamed(link.params, ReferrerParam(link.hostname).value, address.value, n);
    }
  }

  /** Which parameter each hostname gets: the first matching suffix in the source's order decides. */
  lemma ReferrerChoice(hostname: string)
    ensures ReferrerParam(hostname) == Some("referrerAddress") <==> EndsWith(hostname, "mirror.xyz")
    ensures ReferrerParam(hostname) == Some("referrer") <==>
      !EndsWith(hostname, "mirror.xyz") &&
      (EndsWith(hostname, "paragraph.xyz") || EndsWith(hostname, "zora.co") || EndsWith(hostname, "manifold.xyz"))
    ensures ReferrerParam(hostname) == Some("ref") <==>
      !EndsWith(hostname, "mirror.xyz") && !EndsWith(hostname, "paragraph.xyz") && !EndsWith(hostname, "zora.co") &&
      !EndsWith(hostname, "manifold.xyz") && EndsWith(hostname, "foundation.app")
  {
  }

  // truncateLongWords

  /** The default `maxLength` of `truncateLongWords`. */
  const DefaultMaxLength := 20

  /** `word.length > maxLength ? `${word.substring(0, maxLength)}...` : word`. */
  function Truncate(word: string, maxLength: int): (r: string)
    ensures |word| <= maxLength ==> r == word
    ensures |word| > maxLength ==>
      |r| == (if maxLength < 0 then 0 else maxLength) + 3 && r[..|r| - 3] <= word && r[|r| - 3..] == "..."
    ensures forall ch :: ch in r ==> ch in word || ch == '.'
  {
    if |word| > maxLength then word[..if maxLength < 0 then 0 else maxLength] + "..." else word
  }

  function TruncateAll(words: seq<string>, maxLength: int): (r: seq<string>)
    ensures |r| == |words|
  {
    seq(|words|, i requires 0 <= i < |words| => Truncate(words[i], maxLength))
  }

  /** `truncateLongWords(text, maxLength)`. */
  function TruncateLongWords(text: string, maxLength: int): string {
    Join(TruncateAll(Split(text, ' '), maxLength), ' ')
  }

  /**
   * The space-separated words of the result are the words of the text, in
   * the same number and order, each truncated on its own; none is longer
   * than `maxLength + 3`.
   */
  lemma TruncateWords(text: string, maxLength: int)
    ensures Split(TruncateLongWords(text, maxLength), ' ') == TruncateAll(Split(text, ' '), maxLength)
    ensures forall w :: w in Split(TruncateLongWords(text, maxLength), ' ') ==>
      |w| <= (if maxLength < 0 then 0 else maxLength) + 3
  {
    var words := Split(text, ' ');
    var out := TruncateAll(words, maxLength);
    SplitPieces(text, ' ');
    forall i | 0 <= i < |out| ensures ' ' !in out[i] {
      var w := words[i];
      if |w| > maxLength {
        var k := if maxLength < 0 then 0 else maxLength;
        assert forall j :: 0 <= j < k ==> w[..k][j] == w[j];
        assert out[i] == w[..k] + "...";
      }
    }
    SplitJoin(out, ' ');
  }

  /** As a story row calls it, on a title with the default limit: no word of the result is longer than 23 characters. */
  lemma TitleWords(title: string)
    ensures forall w :: w in Split(TruncateLongWords(title, DefaultMaxLength), ' ') ==> |w| <= 23
  {
    TruncateWords(title, DefaultMaxLength);
  }

  /** Text whose words all fit comes back unchanged. */
  lemma ShortWordsUnchanged(text: string, maxLength: int)
    requires forall w :: w in Split(text, ' ') ==> |w| <= maxLength
    ensures TruncateLongWords(text, maxLength) == text
  {
    var words := Split(text, ' ');
    assert TruncateAll(words, maxLength) == words;
    JoinSplit(text, ' ');
  }
}
