/** The buffer utility that strips the extra leading byte some HID
    devices on Windows report. */
module Buffers {
  import opened DeviceTypes

  /** The input with its first byte removed. */
  function DropFirst(s: seq<byte>): (r: seq<byte>)
    requires |s| > 0
    ensures |r| == |s| - 1
    ensures forall i :: 0 <= i < |r| ==> r[i] == s[i + 1]
  {
    s[1..]
  }

  /** Putting the removed byte back in front restores the input. */
  lemma DropFirstRestores(s: seq<byte>)
    requires |s| > 0
    ensures [s[0]] + DropFirst(s) == s
  {
    var r := DropFirst(s);
    assert forall i :: 0 <= i < |s| ==> ([s[0]] + r)[i] == s[i];
  }

  /** RemoveFirstByte: allocates an array one byte shorter than the input
      and copies bytes 1.. of the input into it. On an empty input the
      allocation length is -1 and the allocation throws. */
  method RemoveFirstByte(bytes: array<byte>) returns (r: Result<array<byte>>)
    ensures r.Failure? <==> bytes.Length == 0
    ensures r.Failure? ==> r.error == NegativeArrayLength
    ensures r.Success? ==> fresh(r.value) && r.value[..] == DropFirst(bytes[..])
    ensures bytes[..] == old(bytes[..])
  {
    var length := bytes.Length - 1;
    if length < 0 {
      return Failure(NegativeArrayLength);
    }
    var retVal := new byte[length];
    // copy bytes 1.. of the input to the start of the new array
    var i := 0;
    while i < length
      invariant 0 <= i <= length
      invariant forall k :: 0 <= k < i ==> retVal[k] == bytes[k + 1]
    {
      retVal[i] := bytes[i + 1];
      i := i + 1;
    }
    assert retVal[..] == DropFirst(bytes[..]);
    return Success(retVal);
  }
}
