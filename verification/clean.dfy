/** `clean_string`: the character filter applied to every text cell, which
    keeps line breaks, tabs and everything at or above the space character,
    and drops the other control characters. */
module TextCleaning {
  import opened Base

  /** The characters the filter lets through: `\n`, `\r`, `\t`, and every code point >= U+0020. */
  predicate Kept(c: char)
  {
    c == '\n' || c == '\r' || c == '\t' || c >= ' '
  }

  predicate AllKept(s: string)
  {
    forall i :: 0 <= i < |s| ==> Kept(s[i])
  }

  /** `t` can be obtained from `s` by deleting characters (order preserved). */
  ghost predicate IsSubseq(t: string, s: string)
    decreases |s|
  {
    if |t| == 0 then true
    else if |s| == 0 then false
    else (t[0] == s[0] && IsSubseq(t[1..], s[1..])) || IsSubseq(t, s[1..])
  }

  /** The filter on a `str`: an order-preserving selection of the input
      that holds only kept characters and every occurrence of each of them. */
  function Clean(s: string): (r: string)
    ensures AllKept(r)
    ensures |r| <= |s|
    ensures IsSubseq(r, s)
    decreases |s|
  {
    if |s| == 0 then ""
    else
      var rest := Clean(s[1..]);
      assert s == [s[0]] + s[1..];
      if Kept(s[0]) then
        var r := [s[0]] + rest;
        assert r[1..] == rest;
        r
      else
        assert |rest| > 0 ==> IsSubseq(rest, s);
        rest
  }

  /** `clean_string(text)`: a falsy argument (`None` or `""`) gives `""`,
      any other string is filtered. */
  function CleanText(text: Option<string>): (r: string)
    ensures !Present(text) ==> r == ""
    ensures Present(text) ==> AllKept(r) && IsSubseq(r, text.value)
  {
    if !Present(text) then "" else Clean(text.value)
  }

  /** Every kept character occurs in `r` as often as in `s`. */
  ghost predicate KeepsKept(r: string, s: string)
  {
    forall c :: Kept(c) ==> multiset(r)[c] == multiset(s)[c]
  }

  /** The filter drops no kept character. */
  lemma {:induction false} CleanCountsKept(s: string)
    ensures KeepsKept(Clean(s), s)
    decreases |s|
  {
    if |s| > 0 {
      var rest := Clean(s[1..]);
      CleanCountsKept(s[1..]);
      assert s == [s[0]] + s[1..];
      assert multiset(s) == multiset{s[0]} + multiset(s[1..]);
      if Kept(s[0]) {
        assert Clean(s) == [s[0]] + rest;
        assert multiset(Clean(s)) == multiset{s[0]} + multiset(rest);
      }
    }
  }

  /** A selection of `s` keeps a sub-multiset of its characters. */
  lemma {:induction false} SubseqMultiset(t: string, s: string)
    requires IsSubseq(t, s)
    ensures multiset(t) <= multiset(s)
    decreases |s|
  {
    if |t| == 0 {
    } else {
      assert s == [s[0]] + s[1..];
      if t[0] == s[0] && IsSubseq(t[1..], s[1..]) {
        SubseqMultiset(t[1..], s[1..]);
        assert t == [t[0]] + t[1..];
      } else {
        SubseqMultiset(t, s[1..]);
      }
    }
  }

  /** The filter is pinned down by its contract: any order-preserving
      selection of `s` made only of kept characters that keeps every
      occurrence of each kept character IS `Clean(s)`. */
  lemma {:induction false} CleanIsUnique(s: string, t: string)
    requires IsSubseq(t, s)
    requires AllKept(t)
    requires KeepsKept(t, s)
    ensures t == Clean(s)
    decreases |s|
  {
    if |s| == 0 {
      assert |t| == 0;
    } else {
      var c := s[0];
      assert s == [c] + s[1..];
      assert multiset(s) == multiset{c} + multiset(s[1..]);
      if Kept(c) {
        if |t| == 0 {
          assert false;
        } else if t[0] == c && IsSubseq(t[1..], s[1..]) {
          assert t == [c] + t[1..];
          assert multiset(t) == multiset{c} + multiset(t[1..]);
          assert AllKept(t[1..]) by {
            forall i | 0 <= i < |t[1..]| ensures Kept(t[1..][i]) {
              assert t[1..][i] == t[i + 1];
            }
          }
          CleanIsUnique(s[1..], t[1..]);
        } else {
          assert IsSubseq(t, s[1..]);
          SubseqMultiset(t, s[1..]);
          assert false;
        }
      } else {
        if |t| > 0 {
          assert Kept(t[0]);
          assert IsSubseq(t, s[1..]);
        }
        assert forall d :: Kept(d) ==> multiset(s[1..])[d] == multiset(s)[d];
        CleanIsUnique(s[1..], t);
      }
    }
  }

  /** A string made only of kept characters passes through unchanged. */
  lemma {:induction false} CleanKeepsKept(s: string)
    requires AllKept(s)
    ensures Clean(s) == s
    decreases |s|
  {
    if |s| > 0 {
      assert AllKept(s[1..]) by {
        forall i | 0 <= i < |s[1..]| ensures Kept(s[1..][i]) {
          assert s[1..][i] == s[i + 1];
        }
      }
      CleanKeepsKept(s[1..]);
      assert s == [s[0]] + s[1..];
    }
  }

  /** Cleaning twice is cleaning once. */
  lemma {:induction false} CleanIdempotent(s: string)
    ensures Clean(Clean(s)) == Clean(s)
  {
    CleanKeepsKept(Clean(s));
  }

  /** `clean_string` is idempotent on its own results, absent input included. */
  lemma {:induction false} CleanTextIdempotent(text: Option<string>)
    ensures CleanText(Some(CleanText(text))) == CleanText(text)
  {
    CleanKeepsKept(CleanText(text));
  }
}
