/** Lower-casing and substring search on strings, as used by the dashboard's search box. */
module Text {

  /** ASCII lower case of one character; every other character is left as it is. */
  function LowerChar(c: char): char
  {
    if 'A' <= c <= 'Z' then (c as int - 'A' as int + 'a' as int) as char else c
  }

  /** Python's str.lower restricted to ASCII letters. */
  function Lower(s: string): string
  {
    seq(|s|, i requires 0 <= i < |s| => LowerChar(s[i]))
  }

  /** Lower-casing twice is the same as lower-casing once. */
  lemma LowerIdempotent(s: string)
    ensures Lower(Lower(s)) == Lower(s)
  {
  }

  /** Lower-casing keeps the length, so a query is empty exactly when its lower-cased form is. */
  lemma LowerKeepsLength(s: string)
    ensures |Lower(s)| == |s|
    ensures Lower(s) == [] <==> s == []
  {
  }

  /** Recursive substring test: q starts s, or q occurs in the tail of s. */
  predicate Contains(s: string, q: string)
    decreases |s|
  {
    q <= s || (|s| > 0 && Contains(s[1..], q))
  }

  /** `q` occurs in `s` starting at offset `i`. */
  ghost predicate OccursAt(q: string, s: string, i: int)
  {
    0 <= i && i + |q| <= |s| && s[i..i + |q|] == q
  }

  /** Reference definition: q occurs in s at some offset. */
  ghost predicate IsSubstringOf(q: string, s: string)
  {
    exists i :: OccursAt(q, s, i)
  }

  /** An occurrence in the tail of `s` is an occurrence in `s` one place further on. */
  lemma OccursInTail(q: string, s: string, i: int)
    requires s != [] && 0 <= i
    ensures OccursAt(q, s[1..], i) <==> OccursAt(q, s, i + 1)
  {
    if i + |q| <= |s[1..]| {
      assert s[1..][i..i + |q|] == s[i + 1..i + 1 + |q|];
    }
  }

  /** The recursive test agrees with the reference definition, in both directions. */
  lemma {:induction false} ContainsIsSubstring(s: string, q: string)
    ensures Contains(s, q) <==> IsSubstringOf(q, s)
    decreases |s|
  {
    if q <= s {
      assert OccursAt(q, s, 0);
    } else if |s| == 0 {
      assert !IsSubstringOf(q, s);
    } else {
      ContainsIsSubstring(s[1..], q);
      if IsSubstringOf(q, s[1..]) {
        var i :| OccursAt(q, s[1..], i);
        OccursInTail(q, s, i);
      }
      if IsSubstringOf(q, s) {
        var i :| OccursAt(q, s, i);
        if i > 0 {
          OccursInTail(q, s, i - 1);
        }
      }
    }
  }

  /** A query with a character that the text does not have never occurs in it. */
  lemma MissingCharNotContained(s: string, q: string, ch: char)
    requires ch in q && ch !in s
    ensures !Contains(s, q)
  {
    ContainsIsSubstring(s, q);
  }

  /** A lower-case letter in lower-cased text comes from that letter or its upper-case form. */
  lemma LowerMember(s: string, ch: char)
    requires 'a' <= ch <= 'z'
    ensures ch in Lower(s) ==> ch in s || (ch as int - 'a' as int + 'A' as int) as char in s
  {
    if ch in Lower(s) {
      var i :| 0 <= i < |s| && Lower(s)[i] == ch;
      assert LowerChar(s[i]) == ch;
    }
  }
}
