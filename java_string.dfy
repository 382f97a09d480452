/**
 * The `java.lang.String` operations the core relies on, with Java's own
 * semantics: `trim` strips every character up to U+0020, `contains` and
 * `replace` work on substrings (not on tokens), and `split` with a one-character
 * separator drops trailing empty pieces.
 */
module JavaString {

  import opened Wrappers

  /** The characters `String.trim()` removes: code points U+0000 to U+0020. */
  predicate TrimsAway(c: char) {
    c <= ' '
  }

  function TrimStart(s: string): (r: string)
    ensures |r| <= |s| && r == s[|s| - |r|..]
    ensures r == [] || !TrimsAway(r[0])
    ensures s == [] || !TrimsAway(s[0]) ==> r == s
  {
    if s != [] && TrimsAway(s[0]) then TrimStart(s[1..]) else s
  }

  function TrimEnd(s: string): (r: string)
    ensures |r| <= |s| && r == s[..|r|]
    ensures r == [] || !TrimsAway(r[|r| - 1])
    ensures s == [] || !TrimsAway(s[|s| - 1]) ==> r == s
  {
    if s != [] && TrimsAway(s[|s| - 1]) then TrimEnd(s[..|s| - 1]) else s
  }

  /** `s.trim()`: a contiguous piece of `s` that starts and ends above U+0020. */
  function Trim(s: string): (r: string)
    ensures |r| <= |s|
    ensures r == [] || (!TrimsAway(r[0]) && !TrimsAway(r[|r| - 1]))
    ensures s == [] || (!TrimsAway(s[0]) && !TrimsAway(s[|s| - 1])) ==> r == s
  {
    TrimEnd(TrimStart(s))
  }

  /** A string that starts with a character above U+0020 does not trim to nothing. */
  lemma {:induction false} TrimKeepsVisibleStart(s: string)
    requires s != [] && !TrimsAway(s[0])
    ensures Trim(s) != [] && Trim(s)[0] == s[0]
  {
    TrimEndKeepsVisibleStart(s);
  }

  lemma {:induction false} TrimEndKeepsVisibleStart(s: string)
    requires s != [] && !TrimsAway(s[0])
    ensures TrimEnd(s) != [] && TrimEnd(s)[0] == s[0]
  {
    if TrimsAway(s[|s| - 1]) {
      TrimEndKeepsVisibleStart(s[..|s| - 1]);
    }
  }

  /** `Trim(s)` is the piece of `s` starting at `TrimOffset(s)`. */
  function TrimOffset(s: string): nat
  {
    |s| - |TrimStart(s)|
  }

  lemma TrimIsSlice(s: string)
    ensures TrimOffset(s) + |Trim(s)| <= |s|
    ensures Trim(s) == s[TrimOffset(s)..TrimOffset(s) + |Trim(s)|]
  {
    var t := TrimStart(s);
    assert Trim(s) == t[..|Trim(s)|];
  }

  /** `s == null || s.trim().isEmpty()`, the "not provided" test of the hooks. */
  predicate IsBlank(s: Option<string>)
  {
    s.None? || Trim(s.value) == []
  }

  predicate StartsWith(s: string, p: string) {
    |p| <= |s| && s[..|p|] == p
  }

  predicate EndsWith(s: string, p: string) {
    |p| <= |s| && s[|s| - |p|..] == p
  }

  /** `s.contains(p)`: plain substring containment; every string contains "". */
  predicate Contains(s: string, p: string)
    decreases |s|
  {
    StartsWith(s, p) || (s != [] && Contains(s[1..], p))
  }

  /** The index-based reading of `Contains`. */
  lemma {:induction false} ContainsAt(s: string, p: string, i: nat)
    requires i + |p| <= |s| && s[i..i + |p|] == p
    ensures Contains(s, p)
  {
    if i > 0 {
      assert s[1..][i - 1..i - 1 + |p|] == s[i..i + |p|];
      ContainsAt(s[1..], p, i - 1);
    }
  }

  /** `p` occurs in `s` starting at index `i`. */
  predicate OccursAt(s: string, p: string, i: int)
  {
    0 <= i && i + |p| <= |s| && s[i..i + |p|] == p
  }

  /** The converse of `ContainsAt`: a contained string occurs at some index. */
  lemma {:induction false} ContainsIndex(s: string, p: string)
    requires Contains(s, p)
    ensures exists i :: OccursAt(s, p, i)
    decreases |s|
  {
    if StartsWith(s, p) {
      assert OccursAt(s, p, 0);
    } else {
      ContainsIndex(s[1..], p);
      var i :| OccursAt(s[1..], p, i);
      assert s[i + 1..i + 1 + |p|] == s[1..][i..i + |p|];
      assert OccursAt(s, p, i + 1);
    }
  }

  /** Containment is transitive through any enclosing slice. */
  lemma {:induction false} ContainsInSlice(s: string, a: nat, b: nat, p: string)
    requires a <= b <= |s| && Contains(s[a..b], p)
    ensures Contains(s, p)
    decreases b - a
  {
    var t := s[a..b];
    if StartsWith(t, p) {
      assert s[a..a + |p|] == t[..|p|];
      ContainsAt(s, p, a);
    } else {
      assert t[1..] == s[a + 1..b];
      ContainsInSlice(s, a + 1, b, p);
    }
  }

  /**
   * `s.replace(t, r)`: every non-overlapping occurrence of `t`, scanned left to
   * right, becomes `r`; an empty `t` puts `r` before every character and at the end.
   */
  function Replace(s: string, t: string, r: string): (res: string)
    ensures |r| <= |t| && t != [] ==> |res| <= |s|
    ensures t != [] && !Contains(s, t) ==> res == s
    ensures t == [] && r == [] ==> res == s
    decreases |s|
  {
    if t == [] then
      if s == [] then r else r + [s[0]] + Replace(s[1..], t, r)
    else if |s| < |t| then s
    else if s[..|t|] == t then r + Replace(s[|t|..], t, r)
    else [s[0]] + Replace(s[1..], t, r)
  }

  /** The pieces between separators, empty ones included (a regex split with limit -1). */
  function Pieces(s: string, sep: char): (r: seq<string>)
    ensures |r| >= 1
    ensures forall i :: 0 <= i < |r| ==> sep !in r[i]
    ensures sep !in s ==> r == [s]
  {
    if s == [] then [[]]
    else if s[0] == sep then [[]] + Pieces(s[1..], sep)
    else
      var rest := Pieces(s[1..], sep);
      assert s == [s[0]] + s[1..];
      [[s[0]] + rest[0]] + rest[1..]
  }

  /** `String.join(sep, ps)`. */
  function Join(ps: seq<string>, sep: char): string
  {
    if |ps| == 0 then []
    else if |ps| == 1 then ps[0]
    else ps[0] + [sep] + Join(ps[1..], sep)
  }

  function DropTrailingEmpty(ps: seq<string>): (r: seq<string>)
    ensures |r| <= |ps| && r == ps[..|r|]
    ensures r == [] || r[|r| - 1] != []
    ensures forall i :: |r| <= i < |ps| ==> ps[i] == []
  {
    if ps != [] && ps[|ps| - 1] == [] then DropTrailingEmpty(ps[..|ps| - 1]) else ps
  }

  /**
   * `s.split(String.valueOf(sep))`: the pieces with trailing empty ones removed,
   * except that an empty `s` splits into one empty piece.
   */
  function Split(s: string, sep: char): (r: seq<string>)
    ensures forall i :: 0 <= i < |r| ==> sep !in r[i]
    ensures s == [] ==> r == [[]]
  {
    if s == [] then [[]]
    else
      var ps := Pieces(s, sep);
      var r := DropTrailingEmpty(ps);
      assert forall i :: 0 <= i < |r| ==> r[i] == ps[i];
      r
  }

  /** Splitting and joining again gives back the string. */
  lemma {:induction false} JoinPieces(s: string, sep: char)
    ensures Join(Pieces(s, sep), sep) == s
  {
    if s == [] {
    } else if s[0] == sep {
      JoinPieces(s[1..], sep);
    } else {
      var rest := Pieces(s[1..], sep);
      JoinPieces(s[1..], sep);
      if |rest| == 1 {
        assert Join(rest, sep) == rest[0];
      } else {
        assert Join(rest, sep) == rest[0] + [sep] + Join(rest[1..], sep);
        assert [[s[0]] + rest[0]] + rest[1..] == [[s[0]] + rest[0]] + rest[1..];
      }
    }
  }

  lemma {:induction false} PiecesOfConcat(a: string, sep: char, b: string)
    requires sep !in a
    ensures Pieces(a + [sep] + b, sep) == [a] + Pieces(b, sep)
  {
    if a == [] {
      assert a + [sep] + b == [sep] + b;
      assert ([sep] + b)[1..] == b;
    } else {
      assert (a + [sep] + b)[1..] == a[1..] + [sep] + b;
      PiecesOfConcat(a[1..], sep, b);
      assert [a[0]] + a[1..] == a;
    }
  }

  /** Joining separator-free pieces and splitting again gives back the pieces. */
  lemma {:induction false} PiecesOfJoin(ps: seq<string>, sep: char)
    requires ps != []
    requires forall i :: 0 <= i < |ps| ==> sep !in ps[i]
    ensures Pieces(Join(ps, sep), sep) == ps
  {
    if |ps| > 1 {
      PiecesOfJoin(ps[1..], sep);
      PiecesOfConcat(ps[0], sep, Join(ps[1..], sep));
    }
  }
}
