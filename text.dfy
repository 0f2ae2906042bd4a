/**
 * The JavaScript string operations the row helpers are built from:
 * `split` and `join` on a one-character separator, and `endsWith`.
 */
module Text {
  /** The number of occurrences of `c` in `s`. */
  function Occurrences(s: string, c: char): nat {
    if s == [] then 0 else (if s[0] == c then 1 else 0) + Occurrences(s[1..], c)
  }

  /** `s.split(sep)`: the pieces between separators, empty ones included; never an empty list. */
  function Split(s: string, sep: char): (r: seq<string>)
    ensures |r| >= 1
  {
    if s == [] then [""]
    else
      var rest := Split(s[1..], sep);
      if s[0] == sep then [""] + rest
      else [[s[0]] + rest[0]] + rest[1..]
  }

  /** `words.join(sep)`. */
  function Join(words: seq<string>, sep: char): string
    requires |words| >= 1
  {
    if |words| == 1 then words[0] else words[0] + [sep] + Join(words[1..], sep)
  }

  /** `s.endsWith(suffix)`. */
  predicate EndsWith(s: string, suffix: string) {
    |suffix| <= |s| && s[|s| - |suffix|..] == suffix
  }

  lemma {:induction false} OccurrencesAppend(a: string, b: string, c: char)
    ensures Occurrences(a + b, c) == Occurrences(a, c) + Occurrences(b, c)
  {
    if a == [] {
      assert a + b == b;
    } else {
      assert (a + b)[1..] == a[1..] + b;
      OccurrencesAppend(a[1..], b, c);
    }
  }

  /** The pieces of a split hold no separator, and there is one more piece than separators. */
  lemma {:induction false} SplitPieces(s: string, sep: char)
    ensures forall i :: 0 <= i < |Split(s, sep)| ==> sep !in Split(s, sep)[i]
    ensures |Split(s, sep)| == Occurrences(s, sep) + 1
  {
    if s != [] {
      SplitPieces(s[1..], sep);
      var rest := Split(s[1..], sep);
      if s[0] != sep {
        var r := Split(s, sep);
        forall i | 0 <= i < |r| ensures sep !in r[i] {
          if i > 0 {
            assert r[i] == rest[i];
          }
        }
      }
    }
  }

  /** Joining the pieces of a split gives back the string. */
  lemma {:induction false} JoinSplit(s: string, sep: char)
    ensures Join(Split(s, sep), sep) == s
  {
    if s != [] {
      JoinSplit(s[1..], sep);
      var rest := Split(s[1..], sep);
      if s[0] == sep {
        assert Split(s, sep)[1..] == rest;
        assert s == [sep] + s[1..];
      } else {
        var r := Split(s, sep);
        if |rest| == 1 {
          assert s == [s[0]] + rest[0];
        } else {
          assert r[1..] == rest[1..];
          assert Join(rest, sep) == rest[0] + [sep] + Join(rest[1..], sep);
          assert s == [s[0]] + s[1..];
        }
      }
    }
  }

  /** Joining starts with the first character of the first word. */
  lemma JoinFirst(words: seq<string>, sep: char)
    requires |words| >= 1 && words[0] != []
    ensures Join(words, sep) == [words[0][0]] + Join([words[0][1..]] + words[1..], sep)
  {
    var w := words[0];
    var words' := [w[1..]] + words[1..];
    assert words'[1..] == words[1..];
    assert w == [w[0]] + w[1..];
    if |words| > 1 {
      assert Join(words, sep) == w + [sep] + Join(words[1..], sep);
      assert Join(words', sep) == w[1..] + [sep] + Join(words[1..], sep);
    }
  }

  /** Splitting a join of separator-free words gives back the words. */
  lemma {:induction false} SplitJoin(words: seq<string>, sep: char)
    requires |words| >= 1
    requires forall i :: 0 <= i < |words| ==> sep !in words[i]
    ensures Split(Join(words, sep), sep) == words
    decreases |words|, |words[0]|
  {
    var w := words[0];
    if w == [] {
      if |words| > 1 {
        SplitJoin(words[1..], sep);
        var s := Join(words, sep);
        assert s == [sep] + Join(words[1..], sep);
        assert s[1..] == Join(words[1..], sep);
        assert words == [""] + words[1..];
      }
    } else {
      var words' := [w[1..]] + words[1..];
      assert words'[1..] == words[1..];
      forall i | 0 <= i < |words'| ensures sep !in words'[i] {
        if i == 0 {
          assert forall k :: 0 <= k < |w[1..]| ==> w[1..][k] == w[k + 1];
        } else {
          assert words'[i] == words[i];
        }
      }
      SplitJoin(words', sep);
      var s := Join(words, sep);
      var s' := Join(words', sep);
      JoinFirst(words, sep);
      assert s[0] == w[0] && s[1..] == s';
      assert w[0] != sep by {
        assert w[0] in w;
      }
      assert [w[0]] + w[1..] == w;
      assert words == [w] + words[1..];
    }
  }

  /** Joining two non-empty lists of words puts one separator between their joins. */
  lemma {:induction false} JoinAppend(a: seq<string>, b: seq<string>, sep: char)
    requires |a| >= 1 && |b| >= 1
    ensures Join(a + b, sep) == Join(a, sep) + [sep] + Join(b, sep)
    decreases |a|
  {
    assert (a + b)[0] == a[0];
    if |a| > 1 {
      assert (a + b)[1..] == a[1..] + b;
      JoinAppend(a[1..], b, sep);
    } else {
      assert (a + b)[1..] == b;
    }
  }

  lemma {:induction false} NoOccurrences(s: string, c: char)
    requires c !in s
    ensures Occurrences(s, c) == 0
  {
    if s != [] {
      assert forall k :: 0 <= k < |s[1..]| ==> s[1..][k] == s[k + 1];
      NoOccurrences(s[1..], c);
    }
  }
}
