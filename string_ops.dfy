/** The two `String.prototype` operations the search uses: `toLowerCase`,
    restricted to ASCII letters, and `includes`. */
module StringOps {

  predicate IsUpper(c: char)
  {
    'A' <= c <= 'Z'
  }

  /** The lower-case letter of an upper-case ASCII letter; anything else is kept. */
  function LowerChar(c: char): char
  {
    if IsUpper(c) then (c as int - 'A' as int + 'a' as int) as char else c
  }

  /** `s.toLowerCase()` on ASCII: each upper-case letter becomes the letter
      32 code points above it, every other character is kept, and no
      upper-case letter is left. */
  function ToLower(s: string): (r: string)
    ensures |r| == |s|
    ensures forall i :: 0 <= i < |s| ==> !IsUpper(r[i])
    ensures forall i :: 0 <= i < |s| && !IsUpper(s[i]) ==> r[i] == s[i]
    ensures forall i :: 0 <= i < |s| && IsUpper(s[i]) ==> r[i] as int == s[i] as int + 32
  {
    if s == [] then [] else [LowerChar(s[0])] + ToLower(s[1..])
  }

  /** Lower-casing twice is lower-casing once. */
  lemma ToLowerIdempotent(s: string)
    ensures ToLower(ToLower(s)) == ToLower(s)
  {
  }

  /** Two strings have the same lower-case form exactly when they agree
      position by position up to the case of ASCII letters. */
  lemma {:induction false} SameLowerIffCaseVariants(s: string, t: string)
    ensures ToLower(s) == ToLower(t) <==>
              |s| == |t| && forall i :: 0 <= i < |s| ==> LowerChar(s[i]) == LowerChar(t[i])
  {
    if |s| == |t| && forall i :: 0 <= i < |s| ==> LowerChar(s[i]) == LowerChar(t[i]) {
      forall i | 0 <= i < |s| ensures ToLower(s)[i] == ToLower(t)[i] {
        LowerCharAt(s, i);
        LowerCharAt(t, i);
      }
    }
    if ToLower(s) == ToLower(t) {
      forall i | 0 <= i < |s| ensures LowerChar(s[i]) == LowerChar(t[i]) {
        LowerCharAt(s, i);
        LowerCharAt(t, i);
      }
    }
  }

  /** Position `i` of the lower-case form is the lower-case of position `i`. */
  lemma {:induction false} LowerCharAt(s: string, i: nat)
    requires i < |s|
    ensures ToLower(s)[i] == LowerChar(s[i])
  {
    if i > 0 {
      LowerCharAt(s[1..], i - 1);
      assert ToLower(s) == [LowerChar(s[0])] + ToLower(s[1..]);
    }
  }

  /** `q` occurs in `s` starting at position `i`. */
  ghost predicate OccursAt(s: string, q: string, i: int)
  {
    0 <= i && i + |q| <= |s| && s[i..i + |q|] == q
  }

  /** For a non-empty `s`: an occurrence past the first position is an
      occurrence in the tail and back, and an occurrence at the first
      position is a prefix. */
  lemma OccursInTail(s: string, q: string)
    ensures s != [] ==>
      (forall i :: OccursAt(s, q, i) && i > 0 ==> OccursAt(s[1..], q, i - 1)) &&
      (forall i :: OccursAt(s[1..], q, i) ==> OccursAt(s, q, i + 1)) &&
      (OccursAt(s, q, 0) <==> q <= s)
  {
    if s != [] {
      forall i | OccursAt(s, q, i) && i > 0 ensures OccursAt(s[1..], q, i - 1) {
        assert s[1..][i - 1..i - 1 + |q|] == s[i..i + |q|];
      }
      forall i | OccursAt(s[1..], q, i) ensures OccursAt(s, q, i + 1) {
        assert s[1..][i..i + |q|] == s[i + 1..i + 1 + |q|];
      }
    }
  }

  /** `s.includes(q)`: `q` is a contiguous substring of `s`. */
  function Includes(s: string, q: string): (b: bool)
    ensures b <==> exists i :: OccursAt(s, q, i)
  {
    OccursInTail(s, q);
    if q <= s then
      assert OccursAt(s, q, 0);
      true
    else if s == [] then
      false
    else
      Includes(s[1..], q)
  }

  /** Every string includes the empty string. */
  lemma IncludesEmpty(s: string)
    ensures Includes(s, "")
  {
    assert OccursAt(s, "", 0);
  }
}
