/** Archives as the deployer sees them: an ordered sequence of named
    entries, each either a directory (its name ends with '/') or a file
    with content. The zip byte layout (headers, compression, CRCs) is
    replaced by a simple length-prefixed layout, so that a jar can be
    stored in a file as bytes and read back. */
module Archive {
  import opened Base
  import opened Text

  /** java.util.zip.ZipEntry together with the bytes stored for it. */
  datatype ZipEntry = ZipEntry(name: string, data: seq<byte>)
  {
    /** ZipEntry.isDirectory(): the name ends with '/'. */
    predicate IsDirectory() {
      EndsWith(name, "/")
    }
  }

  /** A natural number as little-endian base-128 digits; the high bit of a
      byte says that more digits follow. */
  function EncodeNat(n: nat): (r: seq<byte>)
    ensures |r| >= 1
    decreases n
  {
    if n < 128 then [n as byte] else [(128 + n % 128) as byte] + EncodeNat(n / 128)
  }

  function DecodeNat(s: seq<byte>): (r: Option<(nat, seq<byte>)>)
    ensures r.Some? ==> |r.value.1| < |s|
    decreases |s|
  {
    if |s| == 0 then None
    else if s[0] < 128 then Some((s[0] as nat, s[1..]))
    else match DecodeNat(s[1..])
      case None => None
      case Some((m, rest)) => Some(((s[0] as int - 128) + 128 * m, rest))
  }

  lemma {:induction false} DecodeEncodeNat(n: nat, rest: seq<byte>)
    ensures DecodeNat(EncodeNat(n) + rest) == Some((n, rest))
    decreases n
  {
    var s := EncodeNat(n) + rest;
    if n < 128 {
      assert s[1..] == rest;
    } else {
      assert s[1..] == EncodeNat(n / 128) + rest;
      DecodeEncodeNat(n / 128, rest);
    }
  }

  function EncodeString(s: string): seq<byte>
    decreases |s|
  {
    if |s| == 0 then [] else EncodeNat(s[0] as nat) + EncodeString(s[1..])
  }

  /** The next `count` characters, each stored as its code point. */
  function DecodeString(count: nat, s: seq<byte>): (r: Option<(string, seq<byte>)>)
    ensures r.Some? ==> |r.value.1| <= |s|
    decreases count
  {
    if count == 0 then Some(([], s))
    else match DecodeNat(s)
      case None => None
      case Some((code, rest)) =>
        if !(code < 0xD800 || 0xE000 <= code < 0x11_0000) then None
        else match DecodeString(count - 1, rest)
          case None => None
          case Some((tail, rest')) => Some(([code as char] + tail, rest'))
  }

  lemma {:induction false} DecodeEncodeString(str: string, rest: seq<byte>)
    ensures DecodeString(|str|, EncodeString(str) + rest) == Some((str, rest))
    decreases |str|
  {
    if |str| > 0 {
      var tailBytes := EncodeString(str[1..]) + rest;
      assert EncodeString(str) + rest == EncodeNat(str[0] as nat) + tailBytes;
      DecodeEncodeNat(str[0] as nat, tailBytes);
      DecodeEncodeString(str[1..], rest);
      var code := str[0] as nat;
      assert code < 0xD800 || 0xE000 <= code < 0x11_0000;
      assert code as char == str[0];
      assert [str[0]] + str[1..] == str;
      assert |str| - 1 == |str[1..]|;
      assert DecodeString(|str|, EncodeString(str) + rest)
          == Some(([code as char] + str[1..], rest));
    } else {
      assert EncodeString(str) + rest == rest;
    }
  }

  function EncodeEntry(e: ZipEntry): seq<byte> {
    EncodeNat(|e.name|) + EncodeString(e.name) + EncodeNat(|e.data|) + e.data
  }

  function DecodeEntry(s: seq<byte>): (r: Option<(ZipEntry, seq<byte>)>)
    ensures r.Some? ==> |r.value.1| < |s|
  {
    match DecodeNat(s)
    case None => None
    case Some((nameLength, s1)) =>
      match DecodeString(nameLength, s1)
      case None => None
      case Some((name, s2)) =>
        match DecodeNat(s2)
        case None => None
        case Some((dataLength, s3)) =>
          if |s3| < dataLength then None
          else Some((ZipEntry(name, s3[..dataLength]), s3[dataLength..]))
  }

  lemma DecodeEncodeEntry(e: ZipEntry, rest: seq<byte>)
    ensures DecodeEntry(EncodeEntry(e) + rest) == Some((e, rest))
  {
    var tail3 := e.data + rest;
    var tail2 := EncodeNat(|e.data|) + tail3;
    var tail1 := EncodeString(e.name) + tail2;
    assert EncodeEntry(e) + rest == EncodeNat(|e.name|) + tail1;
    DecodeEncodeNat(|e.name|, tail1);
    DecodeEncodeString(e.name, tail2);
    DecodeEncodeNat(|e.data|, tail3);
    assert tail3[..|e.data|] == e.data;
    assert tail3[|e.data|..] == rest;
  }

  /** The bytes of a file holding the archive. */
  function Encode(entries: seq<ZipEntry>): seq<byte>
    decreases |entries|
  {
    if |entries| == 0 then [] else EncodeEntry(entries[0]) + Encode(entries[1..])
  }

  /** The archive a file's bytes hold, or None when they are not one. */
  function Decode(s: seq<byte>): Option<seq<ZipEntry>>
    decreases |s|
  {
    if |s| == 0 then Some([])
    else match DecodeEntry(s)
      case None => None
      case Some((e, rest)) =>
        match Decode(rest)
        case None => None
        case Some(es) => Some([e] + es)
  }

  /** Reading back a written archive yields the same entries, in order. */
  lemma {:induction false} DecodeEncode(entries: seq<ZipEntry>)
    ensures Decode(Encode(entries)) == Some(entries)
    decreases |entries|
  {
    if |entries| > 0 {
      var e, tail := entries[0], entries[1..];
      var rest := Encode(tail);
      assert Encode(entries) == EncodeEntry(e) + rest;
      DecodeEncodeEntry(e, rest);
      DecodeEncode(tail);
      assert Decode(Encode(entries)) == Some([e] + tail);
      assert [e] + tail == entries;
    }
  }
}
