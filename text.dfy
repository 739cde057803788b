/** Character and string helpers the task filter relies on: lower-casing
    and substring search. */
module Text {

  /** True for the upper-case ASCII letters. */
  predicate IsUpper(c: char)
  {
    'A' <= c <= 'Z'
  }

  /** Lower-cases one character. Only the ASCII letters change; this stands in
      for the Unicode case mapping of Swift's `lowercased()`. */
  function Lower(c: char): (d: char)
    ensures !IsUpper(d)
    ensures IsUpper(c) ==> 'a' <= d <= 'z' && d as int - 'a' as int == c as int - 'A' as int
    ensures !IsUpper(c) ==> d == c
  {
    if IsUpper(c) then (c as int - 'A' as int + 'a' as int) as char else c
  }

  /** `s.lowercased()`: the same length, each character lowered, and no
      upper-case letter left. */
  function Lowercased(s: string): (r: string)
    ensures |r| == |s|
    ensures forall i :: 0 <= i < |s| ==> r[i] == Lower(s[i])
    ensures forall i :: 0 <= i < |r| ==> !IsUpper(r[i])
  {
    seq(|s|, i requires 0 <= i < |s| => Lower(s[i]))
  }

  /** Lower-casing twice is lower-casing once. */
  lemma LowercasedIdempotent(s: string)
    ensures Lowercased(Lowercased(s)) == Lowercased(s)
  {
    var l := Lowercased(s);
    assert forall i :: 0 <= i < |l| ==> Lower(l[i]) == l[i];
  }

  /** The needle `n` occurs in the haystack `h` starting at position `i`. */
  ghost predicate OccursAt(h: string, n: string, i: int)
  {
    0 <= i && i + |n| <= |h| && h[i..i + |n|] == n
  }

  /** `h.contains(n)`: `n` is a prefix of `h` or of one of its suffixes. The
      empty needle is contained everywhere; a contained needle is no longer
      than the text, and its first character occurs in the text. */
  function Contains(h: string, n: string): (b: bool)
    ensures n == [] ==> b
    ensures b ==> |n| <= |h|
    ensures b && n != [] ==> n[0] in h
    decreases |h|
  {
    (|n| <= |h| && h[..|n|] == n) || (h != [] && Contains(h[1..], n))
  }

  /** Contains is exactly "occurs at some position". */
  lemma {:induction false} ContainsIff(h: string, n: string)
    ensures Contains(h, n) <==> exists i :: OccursAt(h, n, i)
    decreases |h|
  {
    if |n| <= |h| && h[..|n|] == n {
      assert OccursAt(h, n, 0);
    } else {
      assert !OccursAt(h, n, 0) by {
        if |n| <= |h| {
          assert h[0..|n|] == h[..|n|];
        }
      }
      if h != [] {
        ContainsIff(h[1..], n);
        forall i | OccursAt(h[1..], n, i)
          ensures OccursAt(h, n, i + 1)
        {
          assert h[1..][i..i + |n|] == h[i + 1..i + 1 + |n|];
        }
        forall i | OccursAt(h, n, i)
          ensures OccursAt(h[1..], n, i - 1)
        {
          assert h[1..][i - 1..i - 1 + |n|] == h[i..i + |n|];
        }
      }
    }
  }

  /** A witness position is enough to show containment. */
  lemma ContainsAt(h: string, n: string, i: nat)
    requires i + |n| <= |h| && h[i..i + |n|] == n
    ensures Contains(h, n)
  {
    assert OccursAt(h, n, i);
    ContainsIff(h, n);
  }
}
