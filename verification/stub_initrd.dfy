/** The kernel stub's initrd loader (kernel-stub/initrd.c): the LoadFile2
    protocol function that hands the built-in initrd to the kernel. */
module StubInitrd {
  import opened Wrappers
  import opened Bytes
  import Efi

  /** What one call leaves behind: the status, `*buffer_size` (absent when
      the caller passed no pointer) and the caller's buffer. */
  datatype Reply = Reply(status: Efi.Status, bufferSize: Option<nat>, buffer: Option<seq<byte>>)

  /** `initrd_load_file`. `initrd` is the loader (absent for a null
      `this`), holding the initrd bytes; `hasPath` says whether a file path
      was given; `buffer` is the caller's buffer, which by the protocol's
      contract holds `*buffer_size` bytes. */
  function LoadFile(initrd: Option<seq<byte>>, hasPath: bool, bootPolicy: bool,
                    bufferSize: Option<nat>, buffer: Option<seq<byte>>): (r: Reply)
    requires bufferSize.Some? && buffer.Some? ==> bufferSize.value <= |buffer.value|
    ensures initrd.None? || !hasPath || bufferSize.None? ==>
      r == Reply(Efi.InvalidParameter, bufferSize, buffer)
    ensures initrd.Some? && hasPath && bufferSize.Some? && bootPolicy ==>
      r == Reply(Efi.Unsupported, bufferSize, buffer)
    ensures r.status == Efi.BufferTooSmall <==>
      initrd.Some? && hasPath && bufferSize.Some? && !bootPolicy
      && (buffer.None? || bufferSize.value < |initrd.value|)
    ensures r.status == Efi.BufferTooSmall ==>
      r.bufferSize == Some(|initrd.value|) && r.buffer == buffer
    ensures r.status == Efi.Success ==>
      && initrd.Some? && buffer.Some? && r.buffer.Some?
      && r.bufferSize == Some(|initrd.value|)
      && |r.buffer.value| == |buffer.value|
      && r.buffer.value[..|initrd.value|] == initrd.value
      && r.buffer.value[|initrd.value|..] == buffer.value[|initrd.value|..]
  {
    if initrd.None? || !hasPath || bufferSize.None? then Reply(Efi.InvalidParameter, bufferSize, buffer)
    else if bootPolicy then Reply(Efi.Unsupported, bufferSize, buffer)
    else
      var size := |initrd.value|;
      if buffer.None? || bufferSize.value < size then Reply(Efi.BufferTooSmall, Some(size), buffer)
      else Reply(Efi.Success, Some(size), Some(Write(buffer.value, 0, initrd.value)))
  }

  /** The usual two calls: asking with no buffer yields the size, and a
      buffer of that size then receives exactly the initrd. */
  lemma SizeThenLoad(initrd: seq<byte>, junk: seq<byte>)
    requires |junk| == |initrd|
    ensures
      var first := LoadFile(Some(initrd), true, false, Some(0), None);
      && first.status == Efi.BufferTooSmall
      && first.bufferSize == Some(|initrd|)
      && LoadFile(Some(initrd), true, false, first.bufferSize, Some(junk))
         == Reply(Efi.Success, Some(|initrd|), Some(initrd))
  {
    var second := LoadFile(Some(initrd), true, false, Some(|initrd|), Some(junk));
    assert second.buffer.value == second.buffer.value[..|initrd|];
  }
}
