/**
 * The two JavaScript string built-ins the contact search relies on:
 * `String.prototype.toLowerCase` (modelled by `Lower`, folding the ASCII
 * letters 'A'..'Z' only) and `String.prototype.includes` (modelled by
 * `Includes`, with the default start position 0).
 */
module JsString {

  predicate IsUpper(c: char) {
    'A' <= c <= 'Z'
  }

  /** Lower-cases one character: an ASCII capital becomes its small letter, anything else is kept. */
  function LowerChar(c: char): (r: char)
    ensures !IsUpper(r)
    ensures IsUpper(c) ==> 'a' <= r <= 'z' && r as int - 'a' as int == c as int - 'A' as int
    ensures !IsUpper(c) ==> r == c
  {
    if IsUpper(c) then (c as int - 'A' as int + 'a' as int) as char else c
  }

  /** `s.toLowerCase()`: the string of the same length, lower-cased character by character. */
  function Lower(s: string): (r: string)
    ensures |r| == |s|
    ensures forall i :: 0 <= i < |s| ==> r[i] == LowerChar(s[i])
  {
    if s == [] then [] else [LowerChar(s[0])] + Lower(s[1..])
  }

  /** Lower-casing twice is lower-casing once. */
  lemma LowerIdempotent(s: string)
    ensures Lower(Lower(s)) == Lower(s)
  {
  }

  /** `sub` occurs in `s` starting at position `i`. */
  predicate OccursAt(s: string, sub: string, i: int) {
    0 <= i && i + |sub| <= |s| && s[i..i + |sub|] == sub
  }

  /**
   * `s.includes(sub)`: scans the start positions of `s` from the left and
   * answers whether `sub` occurs at one of them.
   */
  function Includes(s: string, sub: string): (r: bool)
    ensures r <==> exists i :: OccursAt(s, sub, i)
    decreases |s|
  {
    if |sub| <= |s| && s[..|sub|] == sub then
      assert OccursAt(s, sub, 0);
      true
    else if s == [] then
      false
    else
      IncludesStep(s, sub);
      Includes(s[1..], sub)
  }

  /** An occurrence in `s` is either at position 0 or an occurrence in `s[1..]`, shifted by one. */
  lemma IncludesStep(s: string, sub: string)
    requires s != []
    ensures (exists i :: OccursAt(s, sub, i)) <==> OccursAt(s, sub, 0) || exists i :: OccursAt(s[1..], sub, i)
  {
    if i :| OccursAt(s, sub, i) && i > 0 {
      assert s[1..][i - 1..i - 1 + |sub|] == s[i..i + |sub|];
      assert OccursAt(s[1..], sub, i - 1);
    }
    if i :| OccursAt(s[1..], sub, i) {
      assert s[1..][i..i + |sub|] == s[i + 1..i + 1 + |sub|];
      assert OccursAt(s, sub, i + 1);
    }
  }

  /** Every string includes the empty string. */
  lemma IncludesEmpty(s: string)
    ensures Includes(s, [])
  {
    assert OccursAt(s, [], 0);
  }

  /** Substring containment is transitive. */
  lemma IncludesTransitive(a: string, b: string, c: string)
    requires Includes(a, b) && Includes(b, c)
    ensures Includes(a, c)
  {
    var i :| OccursAt(a, b, i);
    var j :| OccursAt(b, c, j);
    forall k | 0 <= k < |c|
      ensures a[i + j + k] == c[k]
    {
      assert b[j + k] == c[k];
      assert a[i + j + k] == b[j + k];
    }
    assert a[i + j..i + j + |c|] == c;
    assert OccursAt(a, c, i + j);
  }

  /** Lower-casing both sides keeps an occurrence where it was. */
  lemma IncludesLower(s: string, sub: string)
    requires Includes(s, sub)
    ensures Includes(Lower(s), Lower(sub))
  {
    var i :| OccursAt(s, sub, i);
    var ls, lsub := Lower(s), Lower(sub);
    forall k | 0 <= k < |sub|
      ensures ls[i + k] == lsub[k]
    {
      assert s[i + k] == sub[k];
    }
    assert ls[i..i + |sub|] == lsub;
    assert OccursAt(ls, lsub, i);
  }

  /**
   * `sub` occurs in `s` at position `i` when case is ignored: each character
   * of `sub` agrees, once lower-cased, with the lower-cased character of `s`
   * it lines up with.
   */
  predicate FoldedOccursAt(s: string, sub: string, i: int) {
    0 <= i && i + |sub| <= |s| && forall k :: 0 <= k < |sub| ==> LowerChar(s[i + k]) == LowerChar(sub[k])
  }

  /** At one position, an occurrence in the lower-cased strings is a case-insensitive occurrence. */
  lemma OccursAtFolded(s: string, sub: string, i: int)
    ensures OccursAt(Lower(s), Lower(sub), i) <==> FoldedOccursAt(s, sub, i)
  {
    if 0 <= i && i + |sub| <= |s| {
      var ls, lsub := Lower(s), Lower(sub);
      var window := ls[i..i + |sub|];
      assert forall k :: 0 <= k < |sub| ==> window[k] == LowerChar(s[i + k]);
      if FoldedOccursAt(s, sub, i) {
        assert window == lsub;
      }
    }
  }

  /** Searching the lower-cased string for the lower-cased needle is a case-insensitive search. */
  lemma IncludesFolded(s: string, sub: string)
    ensures Includes(Lower(s), Lower(sub)) <==> exists i :: FoldedOccursAt(s, sub, i)
  {
    if i :| OccursAt(Lower(s), Lower(sub), i) {
      OccursAtFolded(s, sub, i);
    }
    if i :| FoldedOccursAt(s, sub, i) {
      OccursAtFolded(s, sub, i);
    }
  }
}
