/*
 * The byte reader that feeds the lexer in the two position-tracking
 * extraction calls. It hands out one byte per `Read` so that its position
 * is always exactly the number of bytes the lexer has consumed.
 */
module ByteReader {
  import opened Html

  class Reader {
    const s: seq<byte>
    var i: int
    const z: int

    /** The bytes handed out so far, in order. */
    ghost var Consumed: seq<byte>

    ghost predicate Valid()
      reads this
    {
      z == |s| && 0 <= i <= z && Consumed == s[..i]
    }

    /** Reader over `text`, positioned at its first byte. */
    constructor (text: seq<byte>)
      ensures Valid()
      ensures s == text && i == 0 && Consumed == []
    {
      s := text;
      z := |text|;
      i := 0;
      Consumed := [];
    }

    /** Current read offset: the number of bytes consumed, never past the end. */
    function Pos(): (p: int)
      requires Valid()
      reads this
      ensures 0 <= p <= |s|
      ensures p == |Consumed|
    {
      i
    }

    /**
     * Copies the next byte into `b[0]` and reports one byte read, or reports
     * EOF and changes nothing once every byte has been handed out.
     */
    method Read(b: array<byte>) returns (n: int, eof: bool)
      requires Valid()
      requires i < z ==> b.Length > 0
      modifies this, b
      ensures Valid()
      ensures eof <==> old(i) >= z
      ensures eof ==> n == 0 && i == old(i) && Consumed == old(Consumed) && b[..] == old(b[..])
      ensures !eof ==> n == 1 && i == old(i) + 1 && b[0] == s[old(i)]
                       && b[1..] == old(b[1..]) && Consumed == old(Consumed) + [b[0]]
    {
      if i >= z {
        return 0, true;
      }
      b[0] := s[i];
      i := i + 1;
      Consumed := Consumed + [b[0]];
      assert s[..i] == s[..i - 1] + [s[i - 1]];
      return 1, false;
    }
  }
}
