/** Strings as the back ends compare and match them: ASCII case mapping (Kotlin's
    `uppercase()` on ASCII text, SQLite's LIKE folding), the code-point order Firestore
    sorts strings by, and the SQL LIKE pattern language. */
module Text {

  function AsciiUpper(c: char): char {
    if 'a' <= c <= 'z' then (c as int - 32) as char else c
  }

  function AsciiLower(c: char): char {
    if 'A' <= c <= 'Z' then (c as int + 32) as char else c
  }

  /** `s.uppercase()` restricted to ASCII letters. */
  function Upper(s: string): string {
    seq(|s|, i requires 0 <= i < |s| => AsciiUpper(s[i]))
  }

  lemma UpperIdempotent(s: string)
    ensures Upper(Upper(s)) == Upper(s)
  {
  }

  predicate StartsWith(s: string, prefix: string) {
    |prefix| <= |s| && s[..|prefix|] == prefix
  }

  // ---------------------------------------------------------------------------
  // Code-point order

  /** `a` sorts at or before `b`, comparing code points left to right; a proper prefix
      sorts first. Firestore orders string fields this way (UTF-8 byte order is code-point order). */
  predicate LessEq(a: string, b: string) {
    a == [] || (b != [] && (a[0] < b[0] || (a[0] == b[0] && LessEq(a[1..], b[1..]))))
  }

  lemma {:induction false} LessEqReflexive(a: string)
    ensures LessEq(a, a)
  {
    if a != [] {
      LessEqReflexive(a[1..]);
    }
  }

  lemma {:induction false} LessEqTotal(a: string, b: string)
    ensures LessEq(a, b) || LessEq(b, a)
  {
    if a != [] && b != [] && a[0] == b[0] {
      LessEqTotal(a[1..], b[1..]);
    }
  }

  lemma {:induction false} LessEqAntisymmetric(a: string, b: string)
    requires LessEq(a, b) && LessEq(b, a)
    ensures a == b
  {
    if a != [] && b != [] {
      LessEqAntisymmetric(a[1..], b[1..]);
      assert a == [a[0]] + a[1..] && b == [b[0]] + b[1..];
    }
  }

  lemma {:induction false} LessEqTransitive(a: string, b: string, c: string)
    requires LessEq(a, b) && LessEq(b, c)
    ensures LessEq(a, c)
  {
    if a != [] && b != [] && c != [] && a[0] == b[0] && b[0] == c[0] {
      LessEqTransitive(a[1..], b[1..], c[1..]);
    }
  }

  /** The order is total, reflexive, antisymmetric and transitive on every set of strings. */
  lemma LessEqIsTotalOrder()
    ensures forall a, b :: LessEq(a, b) || LessEq(b, a)
    ensures forall a, b :: LessEq(a, b) && LessEq(b, a) ==> a == b
    ensures forall a, b, c :: LessEq(a, b) && LessEq(b, c) ==> LessEq(a, c)
  {
    forall a, b ensures LessEq(a, b) || LessEq(b, a) {
      LessEqTotal(a, b);
    }
    forall a, b | LessEq(a, b) && LessEq(b, a) ensures a == b {
      LessEqAntisymmetric(a, b);
    }
    forall a, b, c | LessEq(a, b) && LessEq(b, c) ensures LessEq(a, c) {
      LessEqTransitive(a, b, c);
    }
  }

  /** Lexicographic order on pairs of strings: by the first component, then by the second.
      An ordered Firestore query breaks ties on its sort field by document id this way. */
  predicate PairLessEq(a1: string, a2: string, b1: string, b2: string) {
    (a1 != b1 && LessEq(a1, b1)) || (a1 == b1 && LessEq(a2, b2))
  }

  lemma PairLessEqTotal(a1: string, a2: string, b1: string, b2: string)
    ensures PairLessEq(a1, a2, b1, b2) || PairLessEq(b1, b2, a1, a2)
  {
    LessEqTotal(a1, b1);
    LessEqTotal(a2, b2);
  }

  lemma PairLessEqAntisymmetric(a1: string, a2: string, b1: string, b2: string)
    requires PairLessEq(a1, a2, b1, b2) && PairLessEq(b1, b2, a1, a2)
    ensures a1 == b1 && a2 == b2
  {
    if a1 == b1 {
      LessEqAntisymmetric(a2, b2);
    } else {
      LessEqAntisymmetric(a1, b1);
    }
  }

  lemma PairLessEqTransitive(a1: string, a2: string, b1: string, b2: string, c1: string, c2: string)
    requires PairLessEq(a1, a2, b1, b2) && PairLessEq(b1, b2, c1, c2)
    ensures PairLessEq(a1, a2, c1, c2)
  {
    if a1 == b1 && b1 == c1 {
      LessEqTransitive(a2, b2, c2);
    } else {
      LessEqReflexive(b1);
      LessEqTransitive(a1, b1, c1);
      if a1 == c1 {
        LessEqAntisymmetric(a1, b1);
      }
    }
  }

  // ---------------------------------------------------------------------------
  // Firestore prefix range: field >= q && field <= q + "\U{F8FF}"

  const RangeEnd: char := '\U{F8FF}'

  predicate InPrefixRange(field: string, q: string) {
    LessEq(q, field) && LessEq(field, q + [RangeEnd])
  }

  /** Everything inside the range starts with the query. */
  lemma {:induction false} InPrefixRangeStartsWith(field: string, q: string)
    requires InPrefixRange(field, q)
    ensures StartsWith(field, q)
  {
    if q != [] {
      assert field != [];
      assert (q + [RangeEnd])[0] == q[0];
      assert (q + [RangeEnd])[1..] == q[1..] + [RangeEnd];
      InPrefixRangeStartsWith(field[1..], q[1..]);
      assert field[..|q|] == [field[0]] + field[1..][..|q| - 1];
      assert q == [q[0]] + q[1..];
    }
  }

  /** A field that starts with the query is inside the range unless the character right
      after the query is at or above U+F8FF (and the field goes on past it). */
  lemma {:induction false} StartsWithInPrefixRange(field: string, q: string)
    requires StartsWith(field, q)
    requires |field| == |q| || field[|q|] < RangeEnd || field == q + [RangeEnd]
    ensures InPrefixRange(field, q)
  {
    if q == [] {
      assert field == [] || field[0] < RangeEnd || field == [RangeEnd];
    } else {
      assert field[0] == q[0];
      assert field[1..][..|q| - 1] == field[..|q|][1..];
      assert (q + [RangeEnd])[1..] == q[1..] + [RangeEnd];
      if field == q + [RangeEnd] {
        assert field[1..] == q[1..] + [RangeEnd];
      }
      StartsWithInPrefixRange(field[1..], q[1..]);
    }
  }

  // ---------------------------------------------------------------------------
  // SQL LIKE

  /** Characters equal up to ASCII case, as SQLite's LIKE compares them. */
  predicate FoldEq(a: char, b: char) {
    AsciiLower(a) == AsciiLower(b)
  }

  /** SQL `s LIKE p`: `%` matches any run of characters, `_` exactly one, every other
      pattern character one character equal up to ASCII case; no escape character. */
  predicate Like(s: string, p: string)
    decreases |s| + |p|
  {
    if p == [] then s == []
    else if p[0] == '%' then Like(s, p[1..]) || (s != [] && Like(s[1..], p))
    else s != [] && (p[0] == '_' || FoldEq(s[0], p[0])) && Like(s[1..], p[1..])
  }

  predicate NoWildcards(q: string) {
    forall i :: 0 <= i < |q| ==> q[i] != '%' && q[i] != '_'
  }

  /** `s` begins with `q`, up to ASCII case. */
  predicate MatchesPrefix(s: string, q: string) {
    |q| <= |s| && forall j :: 0 <= j < |q| ==> FoldEq(s[j], q[j])
  }

  /** `s` contains `q` somewhere, up to ASCII case. */
  predicate ContainsFold(s: string, q: string) {
    exists i :: 0 <= i <= |s| && MatchesPrefix(s[i..], q)
  }

  lemma {:induction false} LikeTrailingPercent(s: string)
    ensures Like(s, "%")
  {
    if s != [] {
      LikeTrailingPercent(s[1..]);
    }
  }

  lemma {:induction false} LikePrefixPattern(s: string, q: string)
    requires NoWildcards(q)
    ensures Like(s, q + "%") <==> MatchesPrefix(s, q)
  {
    if q == [] {
      assert q + "%" == "%";
      LikeTrailingPercent(s);
    } else {
      var p := q + "%";
      assert p[0] == q[0] && p[1..] == q[1..] + "%";
      if s != [] {
        LikePrefixPattern(s[1..], q[1..]);
        assert MatchesPrefix(s, q) <==> FoldEq(s[0], q[0]) && MatchesPrefix(s[1..], q[1..]) by {
          if FoldEq(s[0], q[0]) && MatchesPrefix(s[1..], q[1..]) {
            forall j | 0 <= j < |q| ensures FoldEq(s[j], q[j]) {
              if j > 0 { assert s[1..][j - 1] == s[j] && q[1..][j - 1] == q[j]; }
            }
          }
          if MatchesPrefix(s, q) {
            forall j | 0 <= j < |q| - 1 ensures FoldEq(s[1..][j], q[1..][j]) {
              assert FoldEq(s[j + 1], q[j + 1]);
            }
          }
        }
      }
    }
  }

  lemma {:induction false} LikeLeadingPercent(s: string, r: string)
    ensures Like(s, "%" + r) <==> exists i :: 0 <= i <= |s| && Like(s[i..], r)
  {
    var p := "%" + r;
    assert p[0] == '%' && p[1..] == r;
    if Like(s, p) {
      if Like(s, r) {
        assert s[0..] == s;
      } else {
        LikeLeadingPercent(s[1..], r);
        var i :| 0 <= i <= |s[1..]| && Like(s[1..][i..], r);
        assert s[1..][i..] == s[i + 1..];
      }
    }
    if exists i :: 0 <= i <= |s| && Like(s[i..], r) {
      var i :| 0 <= i <= |s| && Like(s[i..], r);
      if i == 0 {
        assert s[0..] == s;
      } else {
        assert s[1..][i - 1..] == s[i..];
        LikeLeadingPercent(s[1..], r);
      }
    }
  }

  /** `s LIKE '%' || q || '%'` holds exactly when `s` contains `q` up to ASCII case,
      provided `q` holds no wildcard characters. */
  lemma LikeContains(s: string, q: string)
    requires NoWildcards(q)
    ensures Like(s, "%" + q + "%") <==> ContainsFold(s, q)
  {
    assert "%" + q + "%" == "%" + (q + "%");
    LikeLeadingPercent(s, q + "%");
    forall i | 0 <= i <= |s| ensures Like(s[i..], q + "%") <==> MatchesPrefix(s[i..], q) {
      LikePrefixPattern(s[i..], q);
    }
  }
}
