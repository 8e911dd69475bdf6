/**
 The cookie file of `ipc/src/lib.rs`: a cookie of 32 octets, followed by the address
 of a server. Files are read and written at a position.
 */
module CookieFile {
  import opened Bytes

  const SIZE: nat := 32

  /** The cookie at the start of some octets, and the rest. */
  function Extract(b: Octets): (r: Option<(Octets, Octets)>) {
    if |b| >= SIZE then Some((b[..SIZE], b[SIZE..])) else None
  }

  lemma ExtractIff(b: Octets, cookie: Octets, rest: Octets)
    ensures Extract(b) == Some((cookie, rest)) <==> |cookie| == SIZE && b == cookie + rest
  {
    if Extract(b) == Some((cookie, rest)) {
      assert b == b[..SIZE] + b[SIZE..];
    }
  }

  /** Octets written over others; a gap is filled with zeros. */
  function Overwritten(b: Octets, position: nat, data: Octets): Octets {
    var padded := if position <= |b| then b else b + seq(position - |b|, _ => 0);
    padded[..position] + data + if position + |data| <= |padded| then padded[position + |data|..] else []
  }

  class File {
    var content: Octets
    var position: nat

    /** Opens a file that holds some octets. */
    constructor (content: Octets)
      ensures this.content == content && position == 0
    {
      this.content, position := content, 0;
    }

    method ReadToEnd() returns (data: Octets)
      modifies this`position
      ensures data == old(if position <= |content| then content[position..] else [])
      ensures position == Max(old(position), |content|)
    {
      data := if position <= |content| then content[position..] else [];
      position := Max(position, |content|);
    }

    method SetLen0()
      modifies this`content
      ensures content == []
    {
      content := [];
    }

    method WriteAll(data: Octets)
      modifies this
      ensures content == Overwritten(old(content), old(position), data)
      ensures position == old(position) + |data|
    {
      content := Overwritten(content, position, data);
      position := position + |data|;
    }

    method Read() returns (r: Option<(Octets, Octets)>)
      requires position == 0
      modifies this`position
      ensures r == Extract(content)
    {
      var data := ReadToEnd();
      assert content[0..] == content;
      return Extract(data);
    }

    /** Replaces the contents, wherever reading left the position. */
    method Write(cookie: Octets, data: Octets)
      modifies this
      ensures content == cookie + data
    {
      position := 0;
      SetLen0();
      WriteAll(cookie);
      WriteAll(data);
    }

    method Clear()
      modifies this
      ensures content == [] && position == old(position)
    {
      SetLen0();
    }
  }

  /** What one client writes, the next one reads. */
  method Publish(file: File, cookie: Octets, address: Octets) returns (r: Option<(Octets, Octets)>)
    requires |cookie| == SIZE && file.position == 0
    modifies file
    ensures r == Some((cookie, address)) && file.content == cookie + address
  {
    var _ := file.Read();
    file.Write(cookie, address);
    var next := new File(file.content);
    r := next.Read();
    ExtractIff(next.content, cookie, address);
  }
}
