/** The standard-library string passes that the base64url encoder and
    decoder run over their text: `std::replace`, the `while (size % 4)`
    padding loops, and the erase/remove idiom. */
module Text {

  /** `std::replace(s.begin(), s.end(), from, to)`. */
  function Replace(s: string, from: char, to: char): (r: string)
    ensures |r| == |s|
    ensures forall i :: 0 <= i < |s| ==> r[i] == (if s[i] == from then to else s[i])
  {
    seq(|s|, i requires 0 <= i < |s| => if s[i] == from then to else s[i])
  }

  /** Append `pad` while the length is not a multiple of 4. */
  function PadTo4(s: string, pad: char): (r: string)
    ensures |r| % 4 == 0 && |s| <= |r| < |s| + 4
    ensures r[..|s|] == s
    ensures forall i :: |s| <= i < |r| ==> r[i] == pad
    decreases (4 - |s| % 4) % 4
  {
    if |s| % 4 != 0 then
      var r := PadTo4(s + [pad], pad);
      assert r[..|s|] == r[..|s| + 1][..|s|];
      r
    else s
  }

  /** `s.erase(std::remove(s.begin(), s.end(), c), s.end())`: every `c`
      removed, the other characters kept in order. */
  function Erase(s: string, c: char): (r: string)
    ensures c !in r
    ensures |r| <= |s|
  {
    if |s| == 0 then []
    else if s[0] == c then Erase(s[1..], c)
    else [s[0]] + Erase(s[1..], c)
  }

  lemma {:induction false} ReplaceAbsent(s: string, from: char, to: char)
    requires from !in s
    ensures Replace(s, from, to) == s
  {
  }

  lemma {:induction false} EraseAbsent(s: string, c: char)
    requires c !in s
    ensures Erase(s, c) == s
  {
    if |s| > 0 {
      EraseAbsent(s[1..], c);
    }
  }

  lemma {:induction false} EraseAppend(a: string, b: string, c: char)
    ensures Erase(a + b, c) == Erase(a, c) + Erase(b, c)
  {
    if |a| == 0 {
      assert a + b == b;
    } else {
      assert (a + b)[1..] == a[1..] + b;
      EraseAppend(a[1..], b, c);
    }
  }

  lemma {:induction false} EraseAll(s: string, c: char)
    requires forall i :: 0 <= i < |s| ==> s[i] == c
    ensures Erase(s, c) == []
  {
    if |s| > 0 {
      EraseAll(s[1..], c);
    }
  }

  /** Padding with `pad` and then removing every `pad` gives back a string
      that held none. */
  lemma {:induction false} PadThenErase(s: string, pad: char)
    requires pad !in s
    ensures Erase(PadTo4(s, pad), pad) == s
  {
    var r := PadTo4(s, pad);
    assert r == s + r[|s|..];
    EraseAppend(s, r[|s|..], pad);
    EraseAbsent(s, pad);
    EraseAll(r[|s|..], pad);
  }
}
