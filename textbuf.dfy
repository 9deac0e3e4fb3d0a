/** The fixed 1024-character text buffer that draw fills, with its
    remaining budget `limit`, and the `_append` routine that adds one piece
    of text to it. */
module TextBuf {

  /** Size of `buf` and the initial value of `limit`. */
  const Capacity := 1024

  predicate NoNul(s: string) {
    forall i :: 0 <= i < |s| ==> s[i] != '\0'
  }

  function Min(a: int, b: int): int {
    if a < b then a else b
  }

  /** The text `_append(s)` leaves behind: the budget is lowered by |s|
      first; only if it is still positive is s copied, and strncat is then
      handed the lowered budget, so at most that many characters of s are
      copied. */
  function AppendedText(text: string, limit: int, s: string): (r: string)
    ensures limit - |s| <= 0 ==> r == text
    ensures limit - |s| >= |s| ==> r == text + s
  {
    if limit - |s| > 0 then text + s[..Min(|s|, limit - |s|)] else text
  }

  /** _append only ever adds a prefix of the piece. */
  lemma AppendAddsPrefix(text: string, limit: int, s: string)
    ensures var r := AppendedText(text, limit, s);
      |text| <= |r| <= |text| + |s| && r == text + s[..|r| - |text|]
  {
  }

  /** One `_append` keeps the buffer's bound: when the text is shorter than
      the buffer and the budget never overstates the room left, the same holds
      afterwards, so text and terminating NUL always fit. */
  lemma AppendStaysInBuffer(text: string, limit: int, s: string)
    requires |text| < Capacity && |text| + limit <= Capacity
    ensures |AppendedText(text, limit, s)| < Capacity
    ensures |AppendedText(text, limit, s)| + (limit - |s|) <= Capacity
  {
  }

  /** The budget is lowered before the copy, so a piece can be cut short
      although it would fit: with 1014 characters in the buffer and a budget
      of 10, "abcdef" (6 characters and a NUL, 1021 in all) loses its last
      two characters. */
  lemma AppendCutsFittingPiece(text: string)
    requires |text| == 1014
    ensures |text| + |"abcdef"| + 1 <= Capacity
    ensures AppendedText(text, 10, "abcdef") == text + "abcd"
  {
  }

  /** `buf` and `limit`. The buffer holds a NUL-terminated string; `used`
      is its length, the position strncat finds the terminator at. */
  class TextBuffer {
    const data: array<char>
    var used: nat
    var limit: int

    ghost predicate Valid()
      reads this, data
    {
      data.Length == Capacity &&
      used < Capacity && data[used] == '\0' &&
      (forall i :: 0 <= i < used ==> data[i] != '\0') &&
      used + limit <= Capacity
    }

    /** The C string currently in the buffer. */
    function Text(): (s: string)
      reads this, data
      requires Valid()
      ensures |s| == used
    {
      data[..used]
    }

    /** A zero-filled buffer with the full budget. */
    constructor ()
      ensures Valid() && fresh(data)
      ensures Text() == [] && limit == Capacity
    {
      data := new char[Capacity](_ => '\0');
      used := 0;
      limit := Capacity;
    }

    /** limit = 1024; buf[0] = '\0'. */
    method Reset()
      requires Valid()
      modifies this, data
      ensures Valid()
      ensures Text() == [] && limit == Capacity
    {
      limit := Capacity;
      data[0] := '\0';
      used := 0;
    }

    /** `_append`. */
    method Append(s: string)
      requires Valid() && NoNul(s)
      modifies this, data
      ensures Valid()
      ensures limit == old(limit) - |s|
      ensures Text() == AppendedText(old(Text()), old(limit), s)
    {
      AppendStaysInBuffer(data[..used], limit, s);
      limit := limit - |s|;
      if limit > 0 {
        var n := Min(|s|, limit);
        forall i | 0 <= i < n {
          data[used + i] := s[i];
        }
        data[used + n] := '\0';
        used := used + n;
        assert data[..used] == old(data[..used]) + s[..n];
      }
    }
  }
}
