/** `std::io::Cursor<Vec<u8>>`: a growable byte buffer with a position. It
    backs every in-memory stream of the repository. */
module Cursors {
  import opened Bytes
  import opened Io

  function Min(a: nat, b: nat): nat {
    if a <= b then a else b
  }

  function Zeros(n: nat): (z: seq<byte>)
    ensures |z| == n && forall i | 0 <= i < n :: z[i] == 0
  {
    seq(n, i => 0)
  }

  /** The buffer after writing `b` at position `p`: the gap between the end of
      `d` and `p`, if any, is filled with zeros, bytes from `p` on are
      overwritten, and the buffer grows when the write runs past its end. */
  function Overwrite(d: seq<byte>, p: nat, b: seq<byte>): (r: seq<byte>)
    ensures |r| == if |d| < p + |b| then p + |b| else |d|
    ensures r[p..p + |b|] == b
    ensures forall i | 0 <= i < |r| && !(p <= i < p + |b|) :: r[i] == if i < |d| then d[i] else 0
  {
    var padded := if p <= |d| then d else d + Zeros(p - |d|);
    padded[..p] + b + (if p + |b| < |padded| then padded[p + |b|..] else [])
  }

  /** Writing at the end of the buffer appends. */
  lemma OverwriteAtEnd(d: seq<byte>, b: seq<byte>)
    ensures Overwrite(d, |d|, b) == d + b
  {
    var r := Overwrite(d, |d|, b);
    assert forall i | 0 <= i < |r| :: r[i] == (d + b)[i] by {
      forall i | 0 <= i < |r| ensures r[i] == (d + b)[i] {
        if i >= |d| { assert r[|d|..|d| + |b|][i - |d|] == b[i - |d|]; }
      }
    }
  }

  class Cursor {
    var data: seq<byte>
    var pos: nat

    /** `Cursor::new(init)`. */
    constructor (init: seq<byte>)
      ensures data == init && pos == 0
    {
      data := init;
      pos := 0;
    }

    /** The bytes a read would deliver next (`remaining_slice`); none once
        the position is at or past the end. */
    function Unread(): (r: seq<byte>)
      reads this
      ensures pos <= |data| ==> r == data[pos..]
      ensures pos >= |data| ==> r == []
    {
      if pos <= |data| then data[pos..] else []
    }

    /** `Read::read`: copies as many unread bytes as fit into `buf` and moves
        past them. A cursor never fails to read. */
    method Read(buf: array<byte>) returns (n: nat)
      modifies this`pos, buf
      ensures n == Min(buf.Length, |old(Unread())|)
      ensures buf[..n] == old(Unread())[..n] && buf[n..] == old(buf[n..])
      ensures pos == old(pos) + n
      ensures Unread() == old(Unread())[n..]
    {
      var src := Unread();
      n := Min(buf.Length, |src|);
      forall i | 0 <= i < n {
        buf[i] := src[i];
      }
      pos := pos + n;
    }

    /** `Write::write`: writes all of `b` at the position and moves past it. */
    method Write(b: seq<byte>) returns (n: nat)
      modifies this
      ensures data == Overwrite(old(data), old(pos), b)
      ensures pos == old(pos) + |b| && n == |b|
    {
      data := Overwrite(data, pos, b);
      pos := pos + |b|;
      n := |b|;
    }

    /** `Write::flush`: nothing is buffered, so it always succeeds. */
    method Flush() returns (r: IoResult<()>)
      ensures r == Ok(())
    {
      r := Ok(());
    }

    /** `Cursor::set_position`. */
    method SetPosition(p: nat)
      modifies this`pos
      ensures pos == p
    {
      pos := p;
    }

    /** `std::io::read_to_string` on the cursor: the unread bytes as text.
        The position moves past them only when they are UTF-8. */
    method ReadToString() returns (r: IoResult<Str>)
      modifies this`pos
      ensures r == DecodeText(old(Unread()))
      ensures pos == if r.Ok? then old(pos) + |old(Unread())| else old(pos)
    {
      var rest := Unread();
      r := DecodeText(rest);
      if r.Ok? {
        pos := pos + |rest|;
      }
    }
  }
}
