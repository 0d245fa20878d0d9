/** The file-name label of `betaToString`: the text the stream prints for
    beta, with every '.' erased ("0.15" becomes "015"). */
module BetaLabel {

  /** The text with every '.' left out and every other character kept in order. */
  function WithoutDots(s: string): (r: string)
    ensures |r| <= |s|
    ensures '.' !in r
  {
    if s == [] then [] else (if s[0] == '.' then [] else [s[0]]) + WithoutDots(s[1..])
  }

  /** Erasing dots from two pieces and joining them is erasing them from the join. */
  lemma {:induction false} WithoutDotsAppend(a: string, b: string)
    ensures WithoutDots(a + b) == WithoutDots(a) + WithoutDots(b)
  {
    if a == [] {
      assert a + b == b;
    } else {
      assert (a + b)[0] == a[0];
      assert (a + b)[1..] == a[1..] + b;
      WithoutDotsAppend(a[1..], b);
    }
  }

  /** Every character other than '.' occurs as often as before. */
  lemma {:induction false} OtherCharactersKept(s: string, c: char)
    requires c != '.'
    ensures multiset(WithoutDots(s))[c] == multiset(s)[c]
  {
    if s != [] {
      assert s == [s[0]] + s[1..];
      OtherCharactersKept(s[1..], c);
    }
  }

  /** A text without dots is left as it is, and only such a text is. */
  lemma {:induction false} DotFreeUnchanged(s: string)
    ensures WithoutDots(s) == s <==> '.' !in s
  {
    if s != [] {
      assert s == [s[0]] + s[1..];
      DotFreeUnchanged(s[1..]);
    }
  }

  /** `std::remove`: shift every character other than '.' to the front, in
      order, and return the new end. */
  method RemoveDots(a: array<char>) returns (newEnd: nat)
    modifies a
    ensures newEnd <= a.Length
    ensures a[..newEnd] == WithoutDots(old(a[..]))
  {
    newEnd := 0;
    for r := 0 to a.Length
      invariant newEnd <= r
      invariant a[..newEnd] == WithoutDots(old(a[..])[..r])
      invariant forall j | r <= j < a.Length :: a[j] == old(a[j])
    {
      ghost var before := a[..newEnd];
      var c := a[r];
      assert old(a[..])[..r + 1] == old(a[..])[..r] + [c];
      WithoutDotsAppend(old(a[..])[..r], [c]);
      if c != '.' {
        a[newEnd] := c;
        newEnd := newEnd + 1;
        assert a[..newEnd] == before + [c];
      }
    }
    assert old(a[..])[..a.Length] == old(a[..]);
  }

  /** betaToString after the formatting step: erase the dots from the
      formatted text, in place, and cut it at the new end. */
  method BetaToString(formatted: string) returns (text: string)
    ensures text == WithoutDots(formatted)
  {
    var str := new char[|formatted|](i requires 0 <= i < |formatted| => formatted[i]);
    assert str[..] == formatted;
    var newEnd := RemoveDots(str);
    text := str[..newEnd];
  }
}
