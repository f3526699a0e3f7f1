/** Glob matching of keys: `*` matches any run of bytes, `?` any one byte, everything else itself. */
module Glob {
  import opened Bytes

  const STAR: Byte := 42
  const QUESTION: Byte := 63

  // ---- What a pattern means ----

  /** The bytes one pattern symbol may stand for. */
  predicate Stands(c: Byte, piece: seq<Byte>) {
    c == STAR || (|piece| == 1 && (c == QUESTION || piece[0] == c))
  }

  function Join(pieces: seq<seq<Byte>>): seq<Byte> {
    if pieces == [] then [] else pieces[0] + Join(pieces[1..])
  }

  /** `s` falls into one piece per symbol of `p`, each allowed by its symbol. */
  ghost predicate Splits(p: seq<Byte>, s: seq<Byte>, pieces: seq<seq<Byte>>) {
    && |pieces| == |p|
    && Join(pieces) == s
    && forall i :: 0 <= i < |p| ==> Stands(p[i], pieces[i])
  }

  ghost predicate Matches(p: seq<Byte>, s: seq<Byte>) {
    exists pieces :: Splits(p, s, pieces)
  }

  /** Some tail of `s` matches `p`: what a leading star asks for. */
  ghost predicate TailMatches(p: seq<Byte>, s: seq<Byte>) {
    exists i :: 0 <= i <= |s| && Matches(p, s[i..])
  }

  // ---- The meaning, one symbol at a time ----

  lemma MatchesEmpty(s: seq<Byte>)
    ensures Matches([], s) <==> s == []
  {
    assert Splits([], [], []);
  }

  lemma SplitsHead(p: seq<Byte>, s: seq<Byte>, piece: seq<Byte>, rest: seq<Byte>)
    requires p != [] && Stands(p[0], piece) && Matches(p[1..], rest) && s == piece + rest
    ensures Matches(p, s)
  {
    var pieces :| Splits(p[1..], rest, pieces);
    var all := [piece] + pieces;
    assert all[1..] == pieces;
    forall i | 0 <= i < |p| ensures Stands(p[i], all[i]) {
      if i > 0 {
        assert Stands(p[1..][i - 1], pieces[i - 1]);
      }
    }
    assert Splits(p, s, all);
  }

  lemma HeadSplits(p: seq<Byte>, s: seq<Byte>) returns (piece: seq<Byte>, rest: seq<Byte>)
    requires p != [] && Matches(p, s)
    ensures Stands(p[0], piece) && Matches(p[1..], rest) && s == piece + rest
  {
    var pieces :| Splits(p, s, pieces);
    piece, rest := pieces[0], Join(pieces[1..]);
    assert Splits(p[1..], rest, pieces[1..]);
  }

  /** Any symbol but a star takes exactly one byte. */
  lemma MatchesOne(p: seq<Byte>, s: seq<Byte>)
    requires p != [] && p[0] != STAR
    ensures Matches(p, s) <==> s != [] && (p[0] == QUESTION || p[0] == s[0]) && Matches(p[1..], s[1..])
  {
    if Matches(p, s) {
      var piece, rest := HeadSplits(p, s);
      assert s[1..] == rest;
    }
    if s != [] && (p[0] == QUESTION || p[0] == s[0]) && Matches(p[1..], s[1..]) {
      SplitsHead(p, s, [s[0]], s[1..]);
    }
  }

  lemma MatchesStar(p: seq<Byte>, s: seq<Byte>)
    requires p != [] && p[0] == STAR
    ensures Matches(p, s) <==> TailMatches(p[1..], s)
  {
    if Matches(p, s) {
      var piece, rest := HeadSplits(p, s);
      assert s[|piece|..] == rest;
    }
    if TailMatches(p[1..], s) {
      var i :| 0 <= i <= |s| && Matches(p[1..], s[i..]);
      SplitsHead(p, s, s[..i], s[i..]);
    }
  }

  /** A run of stars asks no more than one star. */
  lemma StarStar(p: seq<Byte>, s: seq<Byte>)
    requires p != [] && p[0] == STAR
    ensures TailMatches(p, s) <==> TailMatches(p[1..], s)
  {
    if TailMatches(p, s) {
      var i :| 0 <= i <= |s| && Matches(p, s[i..]);
      MatchesStar(p, s[i..]);
      var j :| 0 <= j <= |s[i..]| && Matches(p[1..], s[i..][j..]);
      assert s[i..][j..] == s[i + j..];
    }
    if TailMatches(p[1..], s) {
      MatchesStar(p, s);
      assert s[0..] == s;
    }
  }

  // ---- The matcher ----

  /** Collapses runs of stars and backtracks over the tails behind each; always ends, and decides `Matches`. */
  method MatchGlob(p0: seq<Byte>, s0: seq<Byte>) returns (r: bool)
    ensures r <==> Matches(p0, s0)
    decreases |p0|, 0
  {
    var p, s := p0, s0;
    while p != []
      invariant |p| <= |p0| && (Matches(p0, s0) <==> Matches(p, s))
      decreases |p|
    {
      if p[0] == STAR {
        MatchesStar(p, s);
        r := MatchStar(p[1..], s);
        return;
      }
      MatchesOne(p, s);
      if p[0] == QUESTION {
        if s == [] {
          return false;
        }
      } else if s == [] || p[0] != s[0] {
        return false;
      }
      p, s := p[1..], s[1..];
    }
    MatchesEmpty(s);
    return s == [];
  }

  /** Behind a star: drop further stars, then try every tail. */
  method MatchStar(p0: seq<Byte>, s: seq<Byte>) returns (r: bool)
    ensures r <==> TailMatches(p0, s)
    decreases |p0|, 1
  {
    var p := p0;
    while p != [] && p[0] == STAR
      invariant |p| <= |p0| && (TailMatches(p0, s) <==> TailMatches(p, s))
      decreases |p|
    {
      StarStar(p, s);
      p := p[1..];
    }
    if p == [] {
      MatchesEmpty(s[|s|..]);
      return true;
    }
    for i := 0 to |s| + 1
      invariant forall j :: 0 <= j < i ==> !Matches(p, s[j..])
    {
      r := MatchGlob(p, s[i..]);
      if r {
        return true;
      }
    }
    return false;
  }
}
