/** The portable I/O buffer (src/libc/pio.c): a growing array of bytes with a position,
  written or read one item at a time. */
module PioBuffer {
  import opened Words

  const BLOCK_SIZE := 512

  datatype Mode = Output | Input

  // Subtraction of unsigned longs.
  function Minus(a: nat, b: ulong): (d: nat) {
    if a >= b then a - b else a - b + ULONG_RANGE
  }

  class Buffer {
    var buffer: seq<byte>
    var bufferEnd: nat   // index of the last byte
    var bufferPos: nat
    var mode: Mode

    // An output buffer: everything before the position has been written.
    ghost predicate Writing()
      reads this
    {
      && mode == Output
      && bufferPos <= |buffer|
      && 1 <= |buffer|
      && bufferEnd == if bufferPos == 0 then 0 else bufferPos - 1
    }

    // An input buffer: the bytes from the position up to the last one remain.
    ghost predicate Reading()
      reads this
    {
      mode == Input && bufferPos <= bufferEnd + 1 <= |buffer|
    }

    ghost function Written(): (r: seq<byte>)
      requires Writing()
      reads this
    {
      buffer[..bufferPos]
    }

    ghost function Rest(): (r: seq<byte>)
      requires Reading()
      reads this
    {
      buffer[bufferPos..bufferEnd + 1]
    }

    // The bytes up to and including the last one, as reading from the start sees them.
    ghost function Held(): (r: seq<byte>)
      requires bufferEnd < |buffer|
      reads this
    {
      buffer[..bufferEnd + 1]
    }

    // pio_create_buffer with no initial bytes
    constructor Create(size: nat)
      ensures Writing() && Written() == [] && Held() == [0]
      ensures |buffer| == if size == 0 then BLOCK_SIZE else size
    {
      buffer := seq(if size == 0 then BLOCK_SIZE else size, _ => 0);
      mode := Output;
      bufferEnd := 0;
      bufferPos := 0;
    }

    // pio_create_buffer with initial bytes: the end is set to 0, so one byte is readable
    constructor CreateFrom(bytes: seq<byte>)
      requires bytes != []
      ensures Reading() && buffer == bytes
      ensures Rest() == bytes[..1]
    {
      buffer := bytes;
      mode := Input;
      bufferEnd := 0;
      bufferPos := 0;
    }

    // pio_reset_buffer
    method Reset()
      modifies this`bufferPos
      ensures bufferPos == 0
      ensures mode == Input && bufferEnd < |buffer| ==> Reading() && Rest() == Held()
    {
      bufferPos := 0;
    }

    // pio_check_size; the bytes that realloc adds are arbitrary
    method CheckSize(needed: nat)
      requires Writing()
      modifies this`buffer
      ensures Writing() && Written() == old(Written())
      ensures bufferPos + needed <= |buffer|
      ensures |buffer| - old(|buffer|) ==
              if old(|buffer|) - bufferPos >= needed then 0 else if needed < BLOCK_SIZE then BLOCK_SIZE else needed
    {
      if |buffer| - bufferPos < needed {
        var added: byte := *;
        buffer := buffer + seq(if needed < BLOCK_SIZE then BLOCK_SIZE else needed, _ => added);
      }
    }

    // pio_u_char
    method UChar(x: byte) returns (ret: int, y: byte)
      requires Writing() || Reading()
      modifies this
      ensures mode == old(mode)
      ensures old(Writing()) ==>
                Writing() && ret == 0 && y == x && Written() == old(Written()) + [x]
      ensures old(Reading()) ==>
                && Reading() && buffer == old(buffer) && bufferEnd == old(bufferEnd)
                && if old(Rest()) == [] then ret == -1 && y == x && Rest() == []
                   else ret == 0 && y == old(Rest())[0] && Rest() == old(Rest())[1..]
    {
      y := x;
      if mode == Output {
        CheckSize(1);
        buffer := buffer[bufferPos := x];
        bufferPos := bufferPos + 1;
        bufferEnd := bufferPos - 1;
      } else {
        if bufferPos > bufferEnd {
          bufferPos := bufferEnd + 1;
          return -1, y;
        }
        y := buffer[bufferPos];
        bufferPos := bufferPos + 1;
      }
      ret := 0;
    }

    // The four stores of pio_u_long.
    method StoreFour(s: seq<byte>)
      requires |s| == 4 && bufferPos + 4 <= |buffer|
      modifies this`buffer
      ensures |buffer| == old(|buffer|) && buffer[..bufferPos + 4] == old(buffer[..bufferPos]) + s
    {
      buffer := buffer[bufferPos := s[0]];
      buffer := buffer[bufferPos + 1 := s[1]];
      buffer := buffer[bufferPos + 2 := s[2]];
      buffer := buffer[bufferPos + 3 := s[3]];
    }

    // pio_u_long.  The test for four remaining bytes subtracts 2 without a sign, so below an
    // end of 2 it never fails; what is then read lies partly beyond the buffer.
    method ULong(x: ulong) returns (ret: int, y: ulong)
      requires Writing() || Reading()
      modifies this
      ensures mode == old(mode)
      ensures old(Writing()) ==>
                Writing() && ret == 0 && y == x && Written() == old(Written()) + LongBytes(x)
      ensures old(Reading()) ==> buffer == old(buffer) && bufferEnd == old(bufferEnd) && (ret == 0 || ret == -1)
      ensures old(Reading()) && |old(Rest())| >= 4 ==>
                Reading() && ret == 0 && y == LongValue(old(Rest())[..4]) && Rest() == old(Rest())[4..]
      ensures old(Reading()) && |old(Rest())| < 4 ==> (ret == -1 <==> bufferEnd >= 2)
      ensures old(Reading()) && ret == -1 ==> Reading() && y == 0 && Rest() == []
      ensures old(Reading()) && ret == 0 ==>
                && bufferPos == old(bufferPos) + 4
                && (bufferPos <= |buffer| ==> y == LongValue(buffer[old(bufferPos)..bufferPos]))
    {
      if mode == Output {
        CheckSize(4);
        StoreFour(LongBytes(x));
        bufferPos := bufferPos + 4;
        bufferEnd := bufferPos - 1;
        y := x;
      } else {
        y := 0;
        if bufferPos >= Minus(bufferEnd, 2) {
          bufferPos := bufferEnd + 1;
          return -1, y;
        }
        if bufferPos + 4 <= |buffer| {
          assert |Rest()| >= 4 ==> Rest()[..4] == buffer[bufferPos..bufferPos + 4];
          y := LongValue(buffer[bufferPos..bufferPos + 4]);
        } else {
          var beyond: ulong := *;
          y := beyond;
        }
        bufferPos := bufferPos + 4;
      }
      ret := 0;
    }

    // pio_eof
    method Eof() returns (b: bool)
      ensures b <==> bufferPos > bufferEnd
      ensures Reading() ==> (b <==> Rest() == [])
    {
      b := bufferPos > bufferEnd;
    }

    // pio_write_buffer: the byte at the last index is not written
    method WriteFile() returns (file: seq<byte>)
      requires bufferEnd < |buffer|
      ensures file == Held()[..|Held()| - 1]
    {
      file := buffer[..bufferEnd];
    }

    // pio_read_buffer: the file's bytes are followed by one zero byte
    constructor ReadFile(file: seq<byte>)
      ensures Reading() && bufferPos == 0 && bufferEnd == |file|
      ensures Rest() == file + [0]
    {
      buffer := file + [0, 0];
      bufferPos := 0;
      bufferEnd := |file|;
      mode := Input;
    }
  }
}
