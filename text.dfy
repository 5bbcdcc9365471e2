/** String helpers shared by the URL builder and the colour parser. */
module Text {

  /** Rust's `str::trim_start_matches(c)` for a single character pattern:
      every leading occurrence of `c` is removed, and nothing else. */
  function TrimStart(s: string, c: char): (r: string)
    ensures |r| <= |s| && r == s[|s| - |r|..]
    ensures r == [] || r[0] != c
    decreases |s|
  {
    if s != [] && s[0] == c then TrimStart(s[1..], c) else s
  }

  /** Only copies of `c` are removed. */
  lemma {:induction false} TrimStartRemovesOnly(s: string, c: char)
    ensures forall i :: 0 <= i < |s| - |TrimStart(s, c)| ==> s[i] == c
    decreases |s|
  {
    if s != [] && s[0] == c {
      TrimStartRemovesOnly(s[1..], c);
    }
  }

  /** Trimming is idempotent. */
  lemma TrimStartIdempotent(s: string, c: char)
    ensures TrimStart(TrimStart(s, c), c) == TrimStart(s, c)
  {
    var t := TrimStart(s, c);
    assert t == [] || t[0] != c;
  }

  /** Trimming looks past a leading `c`. */
  lemma TrimStartCons(s: string, t: string, c: char)
    requires s == [c] + t
    ensures TrimStart(s, c) == TrimStart(t, c)
  {
    assert s[1..] == t;
  }

  /** One more leading `c` makes no difference. */
  lemma TrimStartAbsorbs(s: string, c: char)
    ensures TrimStart([c] + s, c) == TrimStart(s, c)
  {
    assert ([c] + s)[1..] == s;
  }
}
