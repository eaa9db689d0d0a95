/**
 SQLite's `LIKE` operator as the search over task names uses it: no ESCAPE clause, `%`
 matches any run of characters (possibly empty), `_` matches exactly one
 character, and every other character matches itself up to ASCII case
 (letters outside A-Z/a-z are compared exactly). Both operands are read as
 NUL-terminated text, so each is cut at its first U+0000.
 */
module Like {

  /** ASCII lower-casing, the only case folding `LIKE` performs by default. */
  function Fold(c: char): (r: char)
    ensures 'A' <= c <= 'Z' ==> r as int == c as int + 32
    ensures !('A' <= c <= 'Z') ==> r == c
  {
    if 'A' <= c <= 'Z' then (c as int + 32) as char else c
  }

  /** `a` and `b` are the same ASCII letter in different cases. */
  predicate CaseVariants(a: char, b: char) {
    || ('A' <= a <= 'Z' && b as int == a as int + 32)
    || ('A' <= b <= 'Z' && a as int == b as int + 32)
  }

  /** Two characters fold alike exactly when they are equal or case variants of one ASCII letter. */
  lemma FoldAlike(a: char, b: char)
    ensures Fold(a) == Fold(b) <==> a == b || CaseVariants(a, b)
  {
  }

  /** `a` and `b` have the same length and agree position-wise up to ASCII case. */
  predicate FoldEq(a: string, b: string) {
    |a| == |b| && forall i :: 0 <= i < |a| ==> Fold(a[i]) == Fold(b[i])
  }

  /** No character of `q` is a `LIKE` wildcard. */
  predicate Literal(q: string) {
    forall i :: 0 <= i < |q| ==> q[i] != '%' && q[i] != '_'
  }

  /** `q` occurs in `s` at offset `i` up to ASCII case. */
  predicate FoldAt(s: string, q: string, i: int) {
    0 <= i <= |s| - |q| && FoldEq(q, s[i..i + |q|])
  }

  /** The reference meaning of a search: `q` occurs somewhere in `s` up to ASCII case. */
  predicate ContainsFold(s: string, q: string) {
    exists i | 0 <= i <= |s| - |q| :: FoldAt(s, q, i)
  }

  /** `q` occurs in `s` at offset `i` character for character. */
  predicate ExactAt(s: string, q: string, i: int) {
    0 <= i <= |s| - |q| && s[i..i + |q|] == q
  }

  /** `q` is a case-sensitive substring of `s`. */
  predicate ContainsExact(s: string, q: string) {
    exists i | 0 <= i <= |s| - |q| :: ExactAt(s, q, i)
  }

  /** `s` contains no U+0000. */
  predicate NulFree(s: string) {
    forall i :: 0 <= i < |s| ==> s[i] != '\0'
  }

  /** What SQLite sees of a text value: everything before the first U+0000. */
  function Cut(s: string): (r: string)
    ensures |r| <= |s| && r == s[..|r|]
    ensures NulFree(r)
    ensures |r| < |s| ==> s[|r|] == '\0'
    ensures NulFree(s) ==> r == s
  {
    if s == [] || s[0] == '\0' then [] else [s[0]] + Cut(s[1..])
  }

  /** Number of pattern characters that must each consume one input character. */
  function Fixed(p: string): nat {
    if p == [] then 0 else (if p[0] == '%' then 0 else 1) + Fixed(p[1..])
  }

  /** `s LIKE p` under SQLite's default (case-insensitive, no escape) semantics. */
  function LikeMatch(p: string, s: string): (b: bool)
    decreases |p| + |s|
    ensures b ==> Fixed(p) <= |s|
    ensures b && (forall i :: 0 <= i < |p| ==> p[i] != '%') ==> |s| == |p|
    ensures p == [] ==> (b <==> s == [])
  {
    if p == [] then s == []
    else if p[0] == '%' then LikeMatch(p[1..], s) || (s != [] && LikeMatch(p, s[1..]))
    else s != [] && (p[0] == '_' || Fold(p[0]) == Fold(s[0])) && LikeMatch(p[1..], s[1..])
  }

  /**
   `s LIKE p` as SQLite evaluates it on two text values: on NUL-free operands it
   is `LikeMatch`, and anything from a U+0000 on is ignored.
   */
  function SqlLike(p: string, s: string): (b: bool)
    ensures NulFree(p) && NulFree(s) ==> (b <==> LikeMatch(p, s))
    ensures b <==> SqlLike(Cut(p), Cut(s))
  {
    LikeMatch(Cut(p), Cut(s))
  }

  /** A lone `%` matches every string. */
  lemma {:induction false} PercentMatchesAll(s: string)
    ensures LikeMatch("%", s)
  {
    assert "%"[1..] == [];
    if s != [] {
      PercentMatchesAll(s[1..]);
    }
  }

  /** A leading `%` lets the rest of the pattern match any suffix of the input. */
  lemma {:induction false} LeadingPercent(r: string, s: string)
    ensures LikeMatch("%" + r, s) <==> exists i :: 0 <= i <= |s| && LikeMatch(r, s[i..])
  {
    var p := "%" + r;
    assert p[0] == '%' && p[1..] == r;
    assert s[0..] == s;
    if s != [] {
      LeadingPercent(r, s[1..]);
      if LikeMatch(p, s[1..]) {
        var j :| 0 <= j <= |s[1..]| && LikeMatch(r, s[1..][j..]);
        assert s[1..][j..] == s[j + 1..];
      }
      if exists i :: 1 <= i <= |s| && LikeMatch(r, s[i..]) {
        var i :| 1 <= i <= |s| && LikeMatch(r, s[i..]);
        assert s[1..][i - 1..] == s[i..];
      }
    }
  }

  /** A wildcard-free pattern followed by `%` matches exactly the strings it prefixes up to case. */
  lemma {:induction false} LiteralPrefix(q: string, t: string)
    requires Literal(q)
    ensures LikeMatch(q + "%", t) <==> |q| <= |t| && FoldEq(q, t[..|q|])
  {
    if q == [] {
      assert q + "%" == "%";
      PercentMatchesAll(t);
    } else {
      var p := q + "%";
      assert p[0] == q[0] && p[1..] == q[1..] + "%";
      assert Literal(q[1..]) by {
        forall i | 0 <= i < |q[1..]|
          ensures q[1..][i] != '%' && q[1..][i] != '_'
        {
          assert q[1..][i] == q[i + 1];
        }
      }
      if t != [] {
        LiteralPrefix(q[1..], t[1..]);
        if |q| <= |t| {
          var a, b := q[1..], t[1..][..|q| - 1];
          assert t[..|q|][1..] == b;
          if FoldEq(q, t[..|q|]) {
            forall i | 0 <= i < |a|
              ensures Fold(a[i]) == Fold(b[i])
            {
              assert a[i] == q[i + 1] && b[i] == t[..|q|][i + 1];
            }
          }
          if Fold(q[0]) == Fold(t[0]) && FoldEq(a, b) {
            forall i | 0 <= i < |q|
              ensures Fold(q[i]) == Fold(t[..|q|][i])
            {
              if i > 0 {
                assert q[i] == a[i - 1] && t[..|q|][i] == b[i - 1];
              }
            }
          }
        }
      }
    }
  }

  /**
   The search pattern `%q%` built from wildcard-free text matches exactly the
   strings that contain `q` up to ASCII case.
   */
  lemma SubstringSearch(q: string, s: string)
    requires Literal(q)
    ensures LikeMatch("%" + q + "%", s) <==> ContainsFold(s, q)
  {
    assert "%" + q + "%" == "%" + (q + "%");
    LeadingPercent(q + "%", s);
    if LikeMatch("%" + q + "%", s) {
      var i :| 0 <= i <= |s| && LikeMatch(q + "%", s[i..]);
      LiteralPrefix(q, s[i..]);
      assert s[i..][..|q|] == s[i..i + |q|];
      assert FoldAt(s, q, i);
    }
    if ContainsFold(s, q) {
      var i :| 0 <= i <= |s| - |q| && FoldAt(s, q, i);
      LiteralPrefix(q, s[i..]);
      assert s[i..][..|q|] == s[i..i + |q|];
      assert LikeMatch(q + "%", s[i..]);
    }
  }

  /** A case-sensitive occurrence is in particular a match (the converse fails, see below). */
  lemma ExactOccurrenceMatches(q: string, s: string)
    requires Literal(q) && ContainsExact(s, q)
    ensures LikeMatch("%" + q + "%", s)
  {
    SubstringSearch(q, s);
    var i :| 0 <= i <= |s| - |q| && ExactAt(s, q, i);
    assert FoldAt(s, q, i);
  }

  /** `%buy%` matches "Buy milk" although "buy" is not a case-sensitive substring of it. */
  lemma CaseInsensitiveWitness()
    ensures LikeMatch("%" + "buy" + "%", "Buy milk")
    ensures !ContainsExact("Buy milk", "buy")
  {
    var s := "Buy milk";
    SubstringSearch("buy", s);
    assert FoldAt(s, "buy", 0);
    forall i | 0 <= i <= |s| - 3
      ensures !ExactAt(s, "buy", i)
    {
      assert s[i] != 'b';
      assert s[i..i + 3][0] == s[i];
    }
  }

  /** A search text of `_` matches every non-empty string and nothing else. */
  lemma UnderscoreSearch(s: string)
    ensures LikeMatch("%" + "_" + "%", s) <==> s != []
  {
    var r := "_" + "%";
    assert "%" + "_" + "%" == "%" + r;
    assert r[0] == '_' && r[1..] == "%";
    LeadingPercent(r, s);
    if s != [] {
      PercentMatchesAll(s[1..]);
      assert LikeMatch(r, s[0..]);
    }
  }

  /** A search text of `%` matches every string. */
  lemma PercentSearch(s: string)
    ensures LikeMatch("%" + "%" + "%", s)
  {
  }

  /**
   The search pattern built from a text free of wildcards and U+0000 matches
   exactly the names whose part before any U+0000 contains the text up to ASCII case.
   */
  lemma SqlSubstringSearch(q: string, s: string)
    requires Literal(q) && NulFree(q)
    ensures SqlLike("%" + q + "%", s) <==> ContainsFold(Cut(s), q)
  {
    var p := "%" + q + "%";
    assert NulFree(p) by {
      forall i | 0 <= i < |p|
        ensures p[i] != '\0'
      {
        if 0 < i < |p| - 1 {
          assert p[i] == q[i - 1];
        }
      }
    }
    SubstringSearch(q, Cut(s));
  }

  /** A search text of U+0000 leaves the pattern `%`, which matches every string. */
  lemma NulSearch(s: string)
    ensures SqlLike("%" + "\0" + "%", s)
  {
    assert Cut("%" + "\0" + "%") == "%" by {
      var p := "%" + "\0" + "%";
      assert p[0] == '%' && p[1] == '\0';
      assert p[1..][0] == '\0';
    }
    PercentMatchesAll(Cut(s));
  }

  /** A search text of `_` matches the strings that do not begin with U+0000 and are non-empty. */
  lemma SqlUnderscoreSearch(s: string)
    ensures SqlLike("%" + "_" + "%", s) <==> s != [] && s[0] != '\0'
  {
    var p := "%" + "_" + "%";
    assert NulFree(p);
    UnderscoreSearch(Cut(s));
  }

  /** A search text of `%` matches every string. */
  lemma SqlPercentSearch(s: string)
    ensures SqlLike("%" + "%" + "%", s)
  {
    var p := "%" + "%" + "%";
    assert NulFree(p);
    PercentSearch(Cut(s));
  }
}
