/** The codecs as they run: taking from one stream and putting to another. */
module Utf8Streams {
  import opened Bytes
  import opened Utf8

  class Output<T> {
    var put: seq<T>

    constructor ()
      ensures put == []
    {
      put := [];
    }

    method Put(c: T)
      modifies this
      ensures put == old(put) + [c]
    {
      put := put + [c];
    }
  }

  class Input {
    const src: seq<Byte>
    var at: nat

    constructor (src: seq<Byte>)
      ensures this.src == src && at == 0
    {
      this.src, at := src, 0;
    }

    ghost function Rest(): seq<Byte>
      requires at <= |src|
      reads this
    {
      src[at..]
    }

    method Take() returns (c: Byte)
      requires at <= |src|
      modifies this`at
      ensures at <= |src| && c == Peek(old(Rest()), 0) && at == old(at) + Next(old(Rest()), 0)
    {
      if at == |src| {
        c := 0;
      } else {
        c := src[at];
        at := at + 1;
      }
    }

    /** Takes one byte into `codepoint` and checks its class. */
    method Follow(ghost from: nat, ghost used: nat, codepoint: nat, ok: bool, mask: nat)
      returns (codepoint': nat, ok': bool)
      requires from + used == at <= |src|
      modifies this`at
      ensures from <= at <= |src|
      ensures Decoded(ok', codepoint', at - from) == Step(src[from..], Decoded(ok, codepoint, used), mask)
    {
      var c := Take();
      codepoint', ok' := codepoint * 64 + c % 64, ok && Shares(Range(c), mask);
    }

    method Decode() returns (ok: bool, codepoint: nat)
      requires at <= |src|
      modifies this`at
      ensures old(at) <= at <= |src|
      ensures Decoded(ok, codepoint, at - old(at)) == Utf8.Decode(old(Rest()))
    {
      hide Step, Shares, FirstBits, Range;
      ghost var from := at;
      var c := Take();
      if c < 0x80 {
        return true, c;
      }
      var range := Range(c);
      ok, codepoint := true, FirstBits(c, range);
      match range {
        case 2 =>
          codepoint, ok := Follow(from, at - from, codepoint, ok, 0x70);
        case 3 =>
          codepoint, ok := Follow(from, at - from, codepoint, ok, 0x70);
          codepoint, ok := Follow(from, at - from, codepoint, ok, 0x70);
        case 4 =>
          codepoint, ok := Follow(from, at - from, codepoint, ok, 0x50);
          codepoint, ok := Follow(from, at - from, codepoint, ok, 0x70);
        case 5 =>
          codepoint, ok := Follow(from, at - from, codepoint, ok, 0x10);
          codepoint, ok := Follow(from, at - from, codepoint, ok, 0x70);
          codepoint, ok := Follow(from, at - from, codepoint, ok, 0x70);
        case 6 =>
          codepoint, ok := Follow(from, at - from, codepoint, ok, 0x70);
          codepoint, ok := Follow(from, at - from, codepoint, ok, 0x70);
          codepoint, ok := Follow(from, at - from, codepoint, ok, 0x70);
        case 10 =>
          codepoint, ok := Follow(from, at - from, codepoint, ok, 0x20);
          codepoint, ok := Follow(from, at - from, codepoint, ok, 0x70);
        case 11 =>
          codepoint, ok := Follow(from, at - from, codepoint, ok, 0x60);
          codepoint, ok := Follow(from, at - from, codepoint, ok, 0x70);
          codepoint, ok := Follow(from, at - from, codepoint, ok, 0x70);
        case _ =>
          ok := false;
      }
    }

    /** Takes one byte, passes it on and checks its class. */
    method CopyByte(ghost from: nat, ghost before: seq<Byte>, out: Output<Byte>, ok: bool, mask: nat)
      returns (ok': bool)
      requires from <= at <= |src| && before <= out.put
      modifies this`at, out
      ensures from <= at <= |src| && before <= out.put
      ensures Checked(ok', out.put[|before|..], at - from) ==
              Copy(src[from..], old(Checked(ok, out.put[|before|..], at - from)), mask)
    {
      var c := Take();
      out.Put(c);
      ok' := ok && Shares(Range(c), mask);
    }

    method Validate(out: Output<Byte>) returns (ok: bool)
      requires at <= |src|
      modifies this`at, out
      ensures old(at) <= at <= |src| && old(out.put) <= out.put
      ensures Checked(ok, out.put[|old(out.put)|..], at - old(at)) == Utf8.Validate(old(Rest()))
    {
      hide Copy, Shares, Range;
      ghost var from, before := at, out.put;
      var c := Take();
      out.Put(c);
      assert out.put[|before|..] == [c];
      ok := true;
      if c < 0x80 {
        return;
      }
      match Range(c) {
        case 2 =>
          ok := CopyByte(from, before, out, ok, 0x70);
        case 3 =>
          ok := CopyByte(from, before, out, ok, 0x70);
          ok := CopyByte(from, before, out, ok, 0x70);
        case 4 =>
          ok := CopyByte(from, before, out, ok, 0x50);
          ok := CopyByte(from, before, out, ok, 0x70);
        case 5 =>
          ok := CopyByte(from, before, out, ok, 0x10);
          ok := CopyByte(from, before, out, ok, 0x70);
          ok := CopyByte(from, before, out, ok, 0x70);
        case 6 =>
          ok := CopyByte(from, before, out, ok, 0x70);
          ok := CopyByte(from, before, out, ok, 0x70);
          ok := CopyByte(from, before, out, ok, 0x70);
        case 10 =>
          ok := CopyByte(from, before, out, ok, 0x20);
          ok := CopyByte(from, before, out, ok, 0x70);
        case 11 =>
          ok := CopyByte(from, before, out, ok, 0x60);
          ok := CopyByte(from, before, out, ok, 0x70);
          ok := CopyByte(from, before, out, ok, 0x70);
        case _ =>
          ok := false;
      }
    }

    /** One code point over to UTF-16; an ill-formed one puts nothing. */
    method Transcode(out: Output<Unit>) returns (ok: bool)
      requires at <= |src|
      modifies this`at, out
      ensures old(at) <= at <= |src|
      ensures var d := Utf8.Decode(old(Rest()));
              && ok == d.ok && at == old(at) + d.used && (ok ==> Scalar(d.codepoint))
              && out.put == old(out.put) + if ok then Utf8.Encode16(d.codepoint) else []
    {
      hide Utf8.Decode, Scalar, Utf8.Encode16;
      ghost var rest := Rest();
      var codepoint;
      ok, codepoint := Decode();
      if ok {
        DecodedIsScalar(rest);
        PutUnits(out, codepoint);
      }
    }
  }

  lemma DecodedIsScalar(s: seq<Byte>)
    requires Utf8.Decode(s).ok
    ensures Scalar(Utf8.Decode(s).codepoint)
  {
    if s != [] { DecodeGivesScalar(s); }
  }

  method PutUnits(out: Output<Unit>, codepoint: nat)
    requires Scalar(codepoint)
    modifies out
    ensures out.put == old(out.put) + Utf8.Encode16(codepoint)
  {
    if codepoint <= 0xFFFF {
      out.Put(codepoint);
    } else {
      var v := codepoint - 0x1_0000;
      out.Put(0xD800 + v / 0x400);
      out.Put(0xDC00 + v % 0x400);
    }
  }

  method PutBytes(out: Output<Byte>, codepoint: nat)
    requires codepoint <= 0x10_FFFF
    modifies out
    ensures out.put == old(out.put) + Utf8.Encode(codepoint)
  {
    if codepoint <= 0x7F {
      out.Put(codepoint);
    } else if codepoint <= 0x7FF {
      out.Put(0xC0 + codepoint / 0x40);
      out.Put(0x80 + codepoint % 0x40);
    } else if codepoint <= 0xFFFF {
      out.Put(0xE0 + codepoint / 0x1000);
      out.Put(0x80 + codepoint / 0x40 % 0x40);
      out.Put(0x80 + codepoint % 0x40);
    } else {
      out.Put(0xF0 + codepoint / 0x4_0000);
      out.Put(0x80 + codepoint / 0x1000 % 0x40);
      out.Put(0x80 + codepoint / 0x40 % 0x40);
      out.Put(0x80 + codepoint % 0x40);
    }
  }
}
