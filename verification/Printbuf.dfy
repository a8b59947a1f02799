/** printbuf: a byte buffer that grows as text is appended. Sizes are C ints. */
module Printbuf {

  const INT_MAX := 0x7fff_ffff

  /** Below this many bytes nothing is refused. */
  const LIMIT := INT_MAX - 9

  function Max(a: int, b: int): int { if a > b then a else b }

  class Printbuf {
    var buf: array<char>
    var bpos: int

    ghost predicate Valid()
      reads this
    {
      0 <= bpos <= buf.Length <= INT_MAX && buf.Length > 0
    }

    function Contents(): seq<char>
      requires Valid()
      reads this, buf
    {
      buf[..bpos]
    }

    /** The text ends with a NUL, so that it is a C string. */
    ghost predicate Terminated()
      requires Valid()
      reads this, buf
    {
      bpos < buf.Length && buf[bpos] == '\0'
    }

    /** printbuf_new. */
    constructor ()
      ensures Valid() && fresh(buf) && Contents() == [] && Terminated()
    {
      var b := new char[32];
      b[0] := '\0';
      buf, bpos := b, 0;
    }

    /** printbuf_extend: room for `minSize` bytes, and for more if possible, so that appending byte by byte
        copies each byte a bounded number of times. */
    method Extend(minSize: int) returns (ok: bool)
      requires Valid()
      modifies this`buf
      ensures Valid() && bpos == old(bpos) && Contents() == old(Contents())
      ensures ok <==> minSize <= Max(old(buf).Length, INT_MAX - 8)
      ensures buf != old(buf) <==> ok && old(buf).Length < minSize
      ensures buf != old(buf) ==> fresh(buf) && buf.Length >= minSize + 8
      ensures buf != old(buf) && old(buf).Length <= INT_MAX / 2 ==> buf.Length >= 2 * old(buf).Length
    {
      if buf.Length >= minSize { return true; }
      if minSize > INT_MAX - 8 { return false; }
      var newSize;
      if buf.Length > INT_MAX / 2 {
        newSize := minSize + 8;
      } else {
        newSize := buf.Length * 2;
        if newSize < minSize + 8 { newSize := minSize + 8; }
      }
      var t := new char[newSize];
      forall i | 0 <= i < buf.Length { t[i] := buf[i]; }
      assert t[..bpos] == buf[..bpos];
      buf := t;
      return true;
    }

    /** printbuf_memappend: all of the text is appended, or nothing. */
    method Memappend(s: seq<char>) returns (r: int)
      requires Valid()
      modifies this, buf
      ensures Valid() && (buf == old(buf) || fresh(buf))
      ensures r == |s| || r == -1
      ensures r == |s| <==> old(bpos) + |s| + 1 <= Max(old(buf).Length, INT_MAX - 8)
      ensures Contents() == if r == |s| then old(Contents()) + s else old(Contents())
      ensures r == |s| ==> Terminated()
    {
      if |s| > INT_MAX - bpos - 1 { return -1; }
      if buf.Length <= bpos + |s| + 1 {
        var ok := Extend(bpos + |s| + 1);
        if !ok { return -1; }
      }
      forall i | 0 <= i < |s| { buf[bpos + i] := s[i]; }
      assert buf[..bpos] == old(Contents());
      assert buf[bpos..bpos + |s|] == s;
      bpos := bpos + |s|;
      buf[bpos] := '\0';
      assert Contents() == old(Contents()) + s;
      return |s|;
    }

    /** printbuf_memset from an offset on, or from the end if it is -1. Text behind the last byte set stays;
        text between the old end and a later offset is not specified. No NUL is put at the end. */
    method Memset(offset: int, c: char, len: nat) returns (r: int)
      requires Valid() && offset >= -1
      modifies this, buf
      ensures Valid() && (buf == old(buf) || fresh(buf))
      ensures r == 0 || r == -1
      ensures var start := if offset == -1 then old(bpos) else offset;
        (r == 0 <==> start + len <= Max(old(buf).Length, INT_MAX - 8)) &&
        (if r == -1 then Contents() == old(Contents()) else
         bpos == Max(old(bpos), start + len) &&
         forall i :: 0 <= i < bpos ==> (start <= i < start + len ==> Contents()[i] == c) &&
                                       (i < old(bpos) && !(start <= i < start + len) ==>
                                         Contents()[i] == old(Contents())[i]))
    {
      var start := if offset == -1 then bpos else offset;
      if len > INT_MAX - start { return -1; }
      var needed := start + len;
      if buf.Length < needed {
        var ok := Extend(needed);
        if !ok { return -1; }
      }
      assert forall i :: 0 <= i < bpos ==> Contents()[i] == old(Contents())[i];
      forall i | 0 <= i < len { buf[start + i] := c; }
      if bpos < needed { bpos := needed; }
      return 0;
    }

    /** printbuf_reset. */
    method Reset()
      requires Valid()
      modifies this`bpos, buf
      ensures Valid() && Contents() == [] && Terminated()
    {
      buf[0] := '\0';
      bpos := 0;
    }
  }
}
