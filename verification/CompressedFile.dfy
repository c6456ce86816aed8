/** Compressed buffers in files (src/libc/pio.c, pio_write_compressed and
  pio_read_compressed).  A file is the sequence of its bytes. */
module CompressedFile {
  import opened Options
  import opened SplayTree
  import opened BitPacking
  import opened PioBuffer
  import opened CodeStream
  import opened Compressor
  import opened Words

  lemma PadLast(a: seq<byte>, b: seq<byte>)
    ensures a + (b + [0]) == a + b + [0]
  {
  }

  method WriteHeader(temp: Buffer, size: ulong)
    requires temp.Writing() && temp.Written() == []
    modifies temp
    ensures temp.Writing() && temp.Written() == MAGIC + LongBytes(size)
  {
    var _, _ := temp.UChar('P' as byte);
    var _, _ := temp.UChar('Z' as byte);
    var _, _ := temp.UChar('0' as byte);
    var _, _ := temp.UChar('1' as byte);
    assert temp.Written() == MAGIC;
    var _, _ := temp.ULong(size);
  }

  // pio_write_compressed, with whatever an earlier run left in the input bit buffer
  method WriteCompressed(buffer: Buffer, residue: byte) returns (file: seq<byte>)
    requires buffer.bufferEnd < |buffer.buffer| && buffer.bufferEnd < ULONG_RANGE
    modifies buffer
    ensures file == FileOf(old(buffer.Held()))
    ensures buffer.buffer == old(buffer.buffer) && buffer.bufferEnd == old(buffer.bufferEnd)
    ensures buffer.bufferPos == old(buffer.bufferPos) && buffer.mode == old(buffer.mode)
  {
    var temp := new Buffer.Create(0);
    WriteHeader(temp, buffer.bufferEnd);
    CompressHeld(buffer, temp, residue);
    assert temp.Held() == temp.Written();
    file := temp.WriteFile();
  }

  // All the buffer holds is compressed into temp; the buffer is then put back as it was.
  method CompressHeld(buffer: Buffer, temp: Buffer, residue: byte)
    requires buffer.bufferEnd < |buffer.buffer| && temp.Writing() && temp != buffer
    modifies buffer, temp
    ensures temp.Writing()
    ensures temp.Written() == old(temp.Written()) + Pack(Encode(Initial(), old(buffer.Held()))) + [0]
    ensures buffer.buffer == old(buffer.buffer) && buffer.bufferEnd == old(buffer.bufferEnd)
    ensures buffer.bufferPos == old(buffer.bufferPos) && buffer.mode == old(buffer.mode)
  {
    var saveType, savePos := buffer.mode, buffer.bufferPos;
    buffer.bufferPos := 0;
    buffer.mode := Input;
    ghost var msg, base := buffer.Rest(), temp.Written();
    CompressBuffer(buffer, temp, residue);
    PadLast(base, Pack(Encode(Initial(), msg)));
    assert temp.Written() == base + Pack(Encode(Initial(), msg)) + [0];
    buffer.bufferPos := savePos;
    buffer.mode := saveType;
  }

  // The first eight bytes are acceptable.
  predicate HeaderOk(file: seq<byte>) {
    var bytes := file + [0];
    |bytes| >= 8 && bytes[..4] == MAGIC && LongValue(bytes[4..8]) != 0
  }

  // What follows them, with the zero byte that reading the file adds.
  function Body(file: seq<byte>): (bytes: seq<byte>)
    requires HeaderOk(file)
  {
    (file + [0])[8..]
  }

  // On a file of less than two bytes the size is read from beyond the buffer; the header is
  // refused all the same, because the magic number was not there to be read.
  method ReadHeader(temp: Buffer) returns (ok: bool)
    requires temp.Reading() && temp.bufferPos == 0
    modifies temp
    ensures temp.buffer == old(temp.buffer) && temp.bufferEnd == old(temp.bufferEnd)
    ensures ok <==> |old(temp.Rest())| >= 8 && old(temp.Rest())[..4] == MAGIC && LongValue(old(temp.Rest())[4..8]) != 0
    ensures ok ==> temp.Reading() && temp.Rest() == old(temp.Rest())[8..]
  {
    ghost var bytes := temp.Rest();
    var r1, m1 := temp.UChar(0);
    var r2, m2 := temp.UChar(0);
    var r3, m3 := temp.UChar(0);
    var r4, m4 := temp.UChar(0);
    var r5, size := temp.ULong(0);
    ok := !(r1 + r2 + r3 + r4 + r5 != 0
            || m1 != 'P' as byte || m2 != 'Z' as byte || m3 != '0' as byte || m4 != '1' as byte
            || size == 0);
    if |bytes| >= 8 {
      assert bytes[1..][1..][1..][1..] == bytes[4..];
      assert bytes[4..][..4] == bytes[4..8];
    }
  }

  // pio_read_compressed, on any file on whose body the decompression ends
  method ReadCompressed(file: seq<byte>, residue: byte) returns (r: Option<Buffer>)
    requires HeaderOk(file) ==> Ends(Body(file), residue)
    ensures r.Some? <==> HeaderOk(file)
    ensures r.Some? ==> fresh(r.value) && r.value.Reading() && r.value.bufferPos == 0
    ensures r.Some? ==>
              if Produced(Body(file), residue) == [] then |r.value.Rest()| == 1
              else r.value.Rest() == Produced(Body(file), residue)
  {
    var temp := new Buffer.ReadFile(file);
    var result := new Buffer.Create(0);
    var ok := ReadHeader(temp);
    if !ok {
      return None;
    }
    var _, _ := DecompressBuffer(temp, result, residue);
    result.mode := Input;
    result.bufferPos := 0;
    r := Some(result);
  }

  // A file that holds a message is read as that message, whatever an earlier run left.
  lemma MessageIsRead(file: seq<byte>, residue: byte)
    requires FileMessage(file).Some?
    ensures HeaderOk(file) && Ends(Body(file), residue) && Produced(Body(file), residue) == FileMessage(file).value
  {
    EndsWithin(Body(file), residue);
  }
}
