/** The string operations the queries and handlers rely on, over ASCII: PostgreSQL's LOWER and
    INITCAP (and Python's str.lower), substring search (Python's `in`, and LIKE '%text%'), and
    the character-code order of strings. */
module Text {

  function LowerChar(c: char): char {
    if 'A' <= c <= 'Z' then (c as int + 32) as char else c
  }

  function UpperChar(c: char): char {
    if 'a' <= c <= 'z' then (c as int - 32) as char else c
  }

  predicate IsAlnum(c: char) {
    'a' <= c <= 'z' || 'A' <= c <= 'Z' || '0' <= c <= '9'
  }

  /** LOWER(s) in SQL and s.lower() in Python */
  function Lower(s: string): string {
    seq(|s|, i requires 0 <= i < |s| => LowerChar(s[i]))
  }

  /** Characters that are the same letter up to case are upper-cased alike and are both
      letters (or both not) */
  lemma SameCharUpToCase(a: char, b: char)
    requires LowerChar(a) == LowerChar(b)
    ensures UpperChar(a) == UpperChar(b)
    ensures IsAlnum(a) == IsAlnum(b)
  {
  }

  /** INITCAP from a position whose previous character was (`afterAlnum`) or was not a letter
      or digit: the first character of every run of letters and digits is upper-cased, every
      other one is lower-cased */
  function InitCapFrom(s: string, afterAlnum: bool): (r: string)
    ensures |r| == |s|
    decreases |s|
  {
    if s == [] then []
    else [if afterAlnum then LowerChar(s[0]) else UpperChar(s[0])] + InitCapFrom(s[1..], IsAlnum(s[0]))
  }

  /** INITCAP(s) */
  function InitCap(s: string): string {
    InitCapFrom(s, false)
  }

  /** INITCAP does not see the case of its argument: two titles equal up to case get the same key */
  lemma {:induction false} InitCapFromIgnoresCase(s: string, t: string, afterAlnum: bool)
    requires Lower(s) == Lower(t)
    ensures InitCapFrom(s, afterAlnum) == InitCapFrom(t, afterAlnum)
    decreases |s|
  {
    assert |s| == |Lower(s)| == |Lower(t)| == |t|;
    if s != [] {
      assert Lower(s)[0] == LowerChar(s[0]) && Lower(t)[0] == LowerChar(t[0]);
      SameCharUpToCase(s[0], t[0]);
      assert Lower(s[1..]) == Lower(s)[1..];
      assert Lower(t[1..]) == Lower(t)[1..];
      InitCapFromIgnoresCase(s[1..], t[1..], IsAlnum(s[0]));
    }
  }

  lemma InitCapIgnoresCase(s: string, t: string)
    requires Lower(s) == Lower(t)
    ensures InitCap(s) == InitCap(t)
  {
    InitCapFromIgnoresCase(s, t, false);
  }

  /** `sub` occurs in `s` starting at position `i` */
  predicate OccursAt(s: string, sub: string, i: int) {
    0 <= i && i + |sub| <= |s| && s[i..i + |sub|] == sub
  }

  /** `sub in s` in Python; `s LIKE '%' || sub || '%'` when sub holds no wildcard */
  function Contains(s: string, sub: string): (r: bool)
    ensures r <==> exists i :: OccursAt(s, sub, i)
    decreases |s|
  {
    if |s| < |sub| then false
    else if s[..|sub|] == sub then assert OccursAt(s, sub, 0); true
    else
      assert forall i :: OccursAt(s, sub, i) ==> i > 0 && OccursAt(s[1..], sub, i - 1);
      assert forall i :: OccursAt(s[1..], sub, i) ==> OccursAt(s, sub, i + 1);
      Contains(s[1..], sub)
  }

  /** `a` comes no later than `b` when strings are compared character code by character code */
  predicate LexLe(a: string, b: string)
    decreases |a|
  {
    a == [] || (b != [] && (a[0] < b[0] || (a[0] == b[0] && LexLe(a[1..], b[1..]))))
  }

  lemma {:induction false} LexLeTotal(a: string, b: string)
    ensures LexLe(a, b) || LexLe(b, a)
    decreases |a|
  {
    if a != [] && b != [] && a[0] == b[0] {
      LexLeTotal(a[1..], b[1..]);
    }
  }

  lemma {:induction false} LexLeTransitive(a: string, b: string, c: string)
    requires LexLe(a, b) && LexLe(b, c)
    ensures LexLe(a, c)
    decreases |a|
  {
    if a != [] && b != [] && c != [] && a[0] == b[0] == c[0] {
      LexLeTransitive(a[1..], b[1..], c[1..]);
    }
  }
}
