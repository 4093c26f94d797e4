/** The JavaScript string operations used by the search route:
    `toLowerCase` (restricted to ASCII letters) and `includes`. */
module Text {

  /** Lower-case form of one character: 'A'..'Z' become 'a'..'z'. */
  function LowerChar(c: char): (d: char)
    ensures 'A' <= c <= 'Z' ==> 'a' <= d <= 'z' && d as int - c as int == 32
    ensures !('A' <= c <= 'Z') ==> d == c
    ensures !('A' <= d <= 'Z')
  {
    if 'A' <= c <= 'Z' then (c as int + 32) as char else c
  }

  /** `s.toLowerCase()`, character by character, length preserved. */
  function Lower(s: string): (r: string)
    ensures |r| == |s|
    ensures forall i :: 0 <= i < |s| ==> r[i] == LowerChar(s[i])
  {
    if s == [] then [] else [LowerChar(s[0])] + Lower(s[1..])
  }

  /** `q` occurs in `h` starting at position `i`. */
  predicate OccursAt(h: string, q: string, i: nat) {
    i + |q| <= |h| && h[i..i + |q|] == q
  }

  /** `h.includes(q)`: `q` occurs in `h` as a contiguous piece. A piece is
      never longer than the text, and a prefix (the empty query among them)
      always occurs. */
  predicate Contains(h: string, q: string): (b: bool)
    ensures b ==> |q| <= |h|
    ensures q <= h ==> b
  {
    assert q <= h ==> OccursAt(h, q, 0);
    exists i: nat :: i <= |h| && OccursAt(h, q, i)
  }

  /** Lower-casing is applied piecewise to a concatenation. */
  lemma {:induction false} LowerAppend(a: string, b: string)
    ensures Lower(a + b) == Lower(a) + Lower(b)
  {
    if a == [] {
      assert a + b == b;
    } else {
      assert (a + b)[0] == a[0];
      assert (a + b)[1..] == a[1..] + b;
      LowerAppend(a[1..], b);
    }
  }

  /** A string with no upper-case letter is its own lower-cased form. */
  lemma LowerKeepsLowerCase(s: string)
    requires forall i :: 0 <= i < |s| ==> !('A' <= s[i] <= 'Z')
    ensures Lower(s) == s
  {
  }

  /** Lower-casing twice is lower-casing once. */
  lemma LowerIdempotent(s: string)
    ensures Lower(Lower(s)) == Lower(s)
  {
    var l := Lower(s);
    assert forall i :: 0 <= i < |l| ==> LowerChar(l[i]) == l[i];
  }

  /** The empty string occurs in every string. */
  lemma ContainsEmpty(h: string)
    ensures Contains(h, "")
  {
    assert OccursAt(h, "", 0);
  }

  /** A piece of the left operand is a piece of the concatenation. */
  lemma ContainsInLeft(a: string, b: string, q: string)
    requires Contains(a, q)
    ensures Contains(a + b, q)
  {
    var i: nat :| i <= |a| && OccursAt(a, q, i);
    assert (a + b)[i..i + |q|] == a[i..i + |q|];
    assert OccursAt(a + b, q, i);
  }

  /** A piece of the right operand is a piece of the concatenation. */
  lemma ContainsInRight(a: string, b: string, q: string)
    requires Contains(b, q)
    ensures Contains(a + b, q)
  {
    var i: nat :| i <= |b| && OccursAt(b, q, i);
    assert (a + b)[|a| + i..|a| + i + |q|] == b[i..i + |q|];
    assert OccursAt(a + b, q, |a| + i);
  }

  /** Lower-casing three pieces joined by blanks lower-cases each piece. */
  lemma LowerJoin(x: string, y: string, z: string)
    ensures Lower(x + " " + y + " " + z) == Lower(x) + " " + Lower(y) + " " + Lower(z)
  {
    var blank := " ";
    assert Lower(blank) == blank;
    var x1 := x + blank;
    LowerAppend(x, blank);
    var x2 := x1 + y;
    LowerAppend(x1, y);
    var x3 := x2 + blank;
    LowerAppend(x2, blank);
    LowerAppend(x3, z);
  }

  /** A piece of any one of three joined strings is a piece of the join. */
  lemma ContainsInJoin(x: string, y: string, z: string, q: string)
    requires Contains(x, q) || Contains(y, q) || Contains(z, q)
    ensures Contains(x + " " + y + " " + z, q)
  {
    if Contains(x, q) {
      ContainsInLeft(x, " " + y + " " + z, q);
      assert x + (" " + y + " " + z) == x + " " + y + " " + z;
    } else if Contains(y, q) {
      ContainsInRight(x + " ", y, q);
      ContainsInLeft(x + " " + y, " " + z, q);
      assert x + " " + y + (" " + z) == x + " " + y + " " + z;
    } else {
      ContainsInRight(x + " " + y + " ", z, q);
    }
  }
}
