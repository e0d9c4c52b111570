/**
 unzip (memdisk/unzip.c): decompress an image and accept it only if the input was used up exactly
 and the size and CRC are the announced ones.
 */
module Unzip {
  import opened Widths
  import opened Options
  import opened DeflateSpec
  import opened DeflateLocality
  import opened Window
  import Inflate
  import Crc32

  const SLACK := 4

  /** What an image has to be: a DEFLATE stream that fills it, of the announced size and CRC. */
  ghost predicate Genuine(z: seq<Byte>, dbytes: nat, origCrc: Crc32.word, data: seq<Byte>) {
    var r := DeflateSpec.Inflate(z, 0, []);
    r.Done? && RoundUp8(r.pos) == 8 * |z| && r.out == data && |data| == dbytes && Crc32.Checksum(data) == origCrc
  }

  /** Stopping exactly at the end of z is the same with and without the bytes after z. */
  lemma SlackIrrelevant(indata: seq<Byte>, z: nat)
    requires z + SLACK <= |indata|
    ensures var r, s := DeflateSpec.Inflate(indata[..z + SLACK], 0, []), DeflateSpec.Inflate(indata[..z], 0, []);
            (r.Done? && RoundUp8(r.pos) == 8 * z) || (s.Done? && RoundUp8(s.pos) == 8 * z) ==> r == s
  {
    var a, b := indata[..z + SLACK], indata[..z];
    assert a[..z] == b[..z];
    var r, s := DeflateSpec.Inflate(a, 0, []), DeflateSpec.Inflate(b, 0, []);
    if r.Done? && RoundUp8(r.pos) == 8 * z {
      InflateLocal(a, b, z, 0, []);
    } else if s.Done? && RoundUp8(s.pos) == 8 * z {
      InflateLocal(b, a, z, 0, []);
    }
  }

  /** None stands for every way the C code dies. The decoder may look 4 bytes past the compressed data. */
  method Unzip(indata: seq<Byte>, zbytes: nat, dbytes: nat, origCrc: Crc32.word) returns (r: Option<seq<Byte>>)
    requires zbytes + SLACK <= |indata| && dbytes + WSIZE < 0x1_0000_0000
    ensures r.Some? ==> Genuine(indata[..zbytes], dbytes, origCrc, r.value)
    ensures r.None? ==> forall data :: !Genuine(indata[..zbytes], dbytes, origCrc, data)
  {
    hide DeflateSpec.Inflate, Crc32.Crc;
    SlackIrrelevant(indata, zbytes);
    var d := new Inflate.Inflater(indata[..zbytes + SLACK], dbytes);
    var st := d.Run();
    if st.Ok? && |d.input| - d.inptr == SLACK && d.bytesOut == dbytes && Crc32.Xor(d.crc, Crc32.ONES) == origCrc {
      r := Some(d.output);
    } else {
      r := None;
    }
  }
}
