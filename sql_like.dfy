/**
 * SQLite's `lower(x) LIKE lower(p)`, which is what an `ilike` filter becomes on SQLite:
 * `%` matches any run of characters, `_` any single character, and letters are compared
 * with ASCII case folding only. There is no escape character.
 */
module SqlLike {

  /** ASCII lower-casing, the only folding SQLite's `lower()` and `LIKE` apply. */
  function Fold(c: char): char {
    if 'A' <= c <= 'Z' then (c as int - 'A' as int + 'a' as int) as char else c
  }

  predicate IsWildcard(c: char) {
    c == '%' || c == '_'
  }

  predicate NoWildcards(n: string) {
    forall j :: 0 <= j < |n| ==> !IsWildcard(n[j])
  }

  /** Does `s` match the pattern `p`? */
  predicate Like(s: string, p: string)
    decreases |s| + |p|
  {
    if p == [] then s == []
    else if p[0] == '%' then Like(s, p[1..]) || (s != [] && Like(s[1..], p))
    else s != [] && (p[0] == '_' || Fold(s[0]) == Fold(p[0])) && Like(s[1..], p[1..])
  }

  /** `s` begins with `n`, ignoring ASCII case. */
  predicate StartsWithIgnoringCase(s: string, n: string) {
    |n| <= |s| && forall j :: 0 <= j < |n| ==> Fold(s[j]) == Fold(n[j])
  }

  /** `n` occurs in `s` as a substring, ignoring ASCII case. */
  predicate ContainsIgnoringCase(s: string, n: string) {
    exists i :: 0 <= i <= |s| && StartsWithIgnoringCase(s[i..], n)
  }

  lemma {:induction false} PercentMatchesAll(s: string)
    ensures Like(s, "%")
  {
    assert "%"[1..] == [];
    if s != [] {
      PercentMatchesAll(s[1..]);
    }
  }

  /** A literal followed by `%` matches exactly the strings that begin with that literal. */
  lemma {:induction false} LiteralThenPercent(s: string, n: string)
    requires NoWildcards(n)
    ensures Like(s, n + "%") <==> StartsWithIgnoringCase(s, n)
  {
    var p := n + "%";
    if n == [] {
      assert p == "%";
      PercentMatchesAll(s);
    } else {
      assert p[0] == n[0] && !IsWildcard(n[0]);
      assert p[1..] == n[1..] + "%";
      assert NoWildcards(n[1..]) by {
        forall j | 0 <= j < |n[1..]| ensures !IsWildcard(n[1..][j]) {
          assert n[1..][j] == n[j + 1];
        }
      }
      if s != [] {
        LiteralThenPercent(s[1..], n[1..]);
        if StartsWithIgnoringCase(s, n) {
          forall j | 0 <= j < |n[1..]| ensures Fold(s[1..][j]) == Fold(n[1..][j]) {
            assert s[1..][j] == s[j + 1] && n[1..][j] == n[j + 1];
          }
        }
        if Fold(s[0]) == Fold(n[0]) && StartsWithIgnoringCase(s[1..], n[1..]) {
          forall j | 0 <= j < |n| ensures Fold(s[j]) == Fold(n[j]) {
            if j > 0 {
              assert s[1..][j - 1] == s[j] && n[1..][j - 1] == n[j];
            }
          }
        }
      }
    }
  }

  /** A leading `%` lets the rest of the pattern match any suffix. */
  lemma {:induction false} LeadingPercent(s: string, q: string)
    ensures Like(s, "%" + q) <==> exists i :: 0 <= i <= |s| && Like(s[i..], q)
  {
    var p := "%" + q;
    assert p[0] == '%' && p[1..] == q;
    assert s[0..] == s;
    if s != [] {
      LeadingPercent(s[1..], q);
      if Like(s[1..], p) {
        var i :| 0 <= i <= |s[1..]| && Like(s[1..][i..], q);
        assert s[1..][i..] == s[i + 1..];
      }
      if exists i :: 0 <= i <= |s| && Like(s[i..], q) {
        var i :| 0 <= i <= |s| && Like(s[i..], q);
        if i > 0 {
          assert s[1..][i - 1..] == s[i..];
        }
      }
    }
  }

  /** For a search term without wildcards, `%term%` is a case-insensitive substring test. */
  lemma SubstringPattern(s: string, n: string)
    requires NoWildcards(n)
    ensures Like(s, "%" + n + "%") <==> ContainsIgnoringCase(s, n)
  {
    assert "%" + n + "%" == "%" + (n + "%");
    LeadingPercent(s, n + "%");
    forall i | 0 <= i <= |s|
      ensures Like(s[i..], n + "%") <==> StartsWithIgnoringCase(s[i..], n)
    {
      LiteralThenPercent(s[i..], n);
    }
  }

  /** An `_` in the search term matches any character: `%_%` accepts every non-empty string. */
  lemma UnderscoreMatchesAnyCharacter(s: string)
    requires s != [] && '_' !in s
    ensures Like(s, "%" + "_" + "%")
    ensures !ContainsIgnoringCase(s, "_")
  {
    var p := "%" + "_" + "%";
    assert p == "%_%";
    assert p[1..] == "_%" && p[1..][1..] == "%";
    PercentMatchesAll(s[1..]);
    assert Like(s, p[1..]);
  }
}
