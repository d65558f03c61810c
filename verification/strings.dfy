/**
  Substring containment on strings, the model of Rust's `str::contains`
  with a string pattern. Strings are sequences of characters.
 */
module Strings {

  /** `needle` occurs in `hay` as a contiguous block starting at index `i`. */
  predicate OccursAt(hay: string, needle: string, i: nat)
  {
    i + |needle| <= |hay| && hay[i..i + |needle|] == needle
  }

  predicate StartsWith(s: string, prefix: string)
  {
    |prefix| <= |s| && s[..|prefix|] == prefix
  }

  /**
    `hay` contains `needle`: try every start position from left to right.
    The empty needle is contained in every string, the empty one included.
   */
  predicate Contains(hay: string, needle: string): (b: bool)
    ensures b ==> |needle| <= |hay|
    ensures needle == [] ==> b
    decreases |hay|
  {
    StartsWith(hay, needle) || (|hay| > 0 && Contains(hay[1..], needle))
  }

  /** The scan agrees with the positional meaning of containment, in both directions. */
  lemma {:induction false} ContainsIffOccurs(hay: string, needle: string)
    ensures Contains(hay, needle) <==> exists i: nat :: OccursAt(hay, needle, i)
    decreases |hay|
  {
    if Contains(hay, needle) {
      if StartsWith(hay, needle) {
        assert OccursAt(hay, needle, 0);
      } else {
        ContainsIffOccurs(hay[1..], needle);
        var i: nat :| OccursAt(hay[1..], needle, i);
        assert hay[1..][i..i + |needle|] == hay[i + 1..i + 1 + |needle|];
        assert OccursAt(hay, needle, i + 1);
      }
    }
    if exists i: nat :: OccursAt(hay, needle, i) {
      var i: nat :| OccursAt(hay, needle, i);
      if i == 0 {
        assert StartsWith(hay, needle);
      } else {
        assert hay[1..][i - 1..i - 1 + |needle|] == hay[i..i + |needle|];
        assert OccursAt(hay[1..], needle, i - 1);
        ContainsIffOccurs(hay[1..], needle);
      }
    }
  }

  /** Whatever surrounds it, a string is found inside the concatenation. */
  lemma ContainsMiddle(a: string, b: string, c: string)
    ensures Contains(a + b + c, b)
  {
    assert (a + b + c)[|a|..|a| + |b|] == b;
    assert OccursAt(a + b + c, b, |a|);
    ContainsIffOccurs(a + b + c, b);
  }

  /** A non-empty needle whose first character never appears in `hay` is not found. */
  lemma NotContainedWithoutFirstChar(hay: string, needle: string)
    requires |needle| > 0 && needle[0] !in hay
    ensures !Contains(hay, needle)
  {
    forall i: nat | i + |needle| <= |hay|
      ensures !OccursAt(hay, needle, i)
    {
      assert hay[i] in hay;
    }
    ContainsIffOccurs(hay, needle);
  }

  /**
    A string mapping that distributes over concatenation, as a per-character
    case mapping does.
   */
  ghost predicate DistributesOverConcat(f: string -> string)
  {
    forall a: string, b: string :: f(a) + f(b) == f(a + b)
  }

  /** Containment survives any mapping that distributes over concatenation. */
  lemma ContainsPreserved(f: string -> string, hay: string, needle: string)
    requires DistributesOverConcat(f)
    requires Contains(hay, needle)
    ensures Contains(f(hay), f(needle))
  {
    ContainsIffOccurs(hay, needle);
    var i: nat :| OccursAt(hay, needle, i);
    var pre, post := hay[..i], hay[i + |needle|..];
    assert hay == pre + needle + post;
    assert f(pre) + f(needle) == f(pre + needle);
    assert f(pre + needle) + f(post) == f(pre + needle + post);
    ContainsMiddle(f(pre), f(needle), f(post));
  }
}
