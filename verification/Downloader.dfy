/**
  The boot download as it runs (c/bootloader/download.c): one loop over the
  decompressed bytes, with the loader's variables updated in place.
 */
module Downloader {
  import opened Bytes
  import opened Crc
  import opened BootImage
  import opened Download
  import opened Decompress
  import Lzss

  /** The section variables of `download` and main memory. */
  class SectionLoader {
    var phase: Phase
    var entry: nat
    var number: nat
    var count: nat
    var filesize: nat
    var offset: nat
    var memsize: nat
    var done: nat
    var integer: nat
    var mem: map<nat, nat>

    ghost function State(): Loader
      reads this
    {
      Loader(phase, entry, number, count, filesize, offset, memsize, done, integer, mem)
    }

    constructor (mem: map<nat, nat>)
      ensures State() == Start(mem)
    {
      phase, entry, number, count := Entrypoint, 0, U32 - 1, 0;
      filesize, offset, memsize, done, integer := 0, 0, 0, 0, 0;
      this.mem := mem;
    }

    /** A complete header word goes to the variable of the current phase. */
    method LatchWord()
      modifies this
      ensures State() == old(Latch(State()))
    {
      match phase {
        case Entrypoint => entry, phase := integer, Number;
        case Number => number, phase := integer, Filesize;
        case Filesize => filesize, phase := integer, Offset;
        case Offset => offset, phase := integer, Memsize;
        case Memsize => memsize, phase := integer, Data;
        case Data =>
      }
      done := 0;
    }

    /** Zero fill up to the memory size, then on to the next section. */
    method FinishSection()
      modifies this
      ensures State() == old(EndSection(State()))
    {
      done := (done + 3) / 4 * 4;
      while done < memsize
        invariant ZeroFill(mem, offset, done, memsize) == old(ZeroFill(mem, offset, RoundUp(done), memsize))
        invariant State() == old(State()).(mem := mem, done := done)
      {
        mem := mem[WordIndex(offset + done) := 0];
        done := done + 4;
      }
      done, count, phase := 0, count + 1, Filesize;
    }

    method FeedByte(b: byte)
      modifies this
      ensures State() == old(Feed(State(), b))
    {
      integer := integer + b * Lane(done % 4);
      done := done + 1;
      if phase != Data {
        if done == 4 { LatchWord(); }
      } else {
        mem := mem[WordIndex(offset + done - 1) := integer];
      }
      if phase == Data && done == filesize { FinishSection(); }
      if done % 4 == 0 { integer := 0; }
    }
  }

  /** The bitwise loop of `download` over one byte. */
  method AbsorbLoop(reg: bv32, data: byte) returns (r: bv32)
    ensures r == AbsorbData(reg, data)
  {
    r := reg ^ (data as bv8) as bv32;
    ghost var start := r;
    for i := 0 to 8
      invariant Bits(r, 8 - i) == Bits(start, 8)
    {
      if r & 1 > 0 { r := (r >> 1) ^ POLY; } else { r := r >> 1; }
    }
  }

  /** The packet variables of `download`. */
  class PacketReceiver {
    var size: nat
    var count: nat
    var reg: bv32
    var recv: nat
    const loader: SectionLoader

    ghost function State(): Machine
      reads this, loader
    {
      Machine(size, count, reg, recv, loader.State())
    }

    constructor (mem: map<nat, nat>)
      ensures fresh(loader) && Running(State()) == Boot(mem)
    {
      size, count, reg, recv := 0, 0, 0, 0xFFFF_FFFF;
      loader := new SectionLoader(mem);
    }

    /** The end of a packet: compare the checksums, then ask whether all sections are there. */
    method EndPacket() returns (r: Option<nat>)
      modifies this
      ensures match old(Finish(State()))
              case Running(m) => r == None && State() == m
              case Returned(a, l) => r == Some(a) && loader.State() == l
    {
      reg := Not(reg);
      if reg as nat != recv { return Some(0); }
      if loader.count == loader.number { return Some(loader.entry); }
      size := 0;
      return None;
    }

    method Receive(data: byte) returns (r: Option<nat>)
      modifies this, loader
      ensures match old(Advance(Running(State()), data))
              case Running(m) => r == None && State() == m
              case Returned(a, l) => r == Some(a) && loader.State() == l
    {
      r := None;
      if size == 0 {
        size, count, reg, recv := data, 0, 0xFFFF_FFFF, 0;
      } else {
        if count < 4 {
          recv := (recv * 256 + data) % U32;
        } else {
          reg := AbsorbLoop(reg, data);
          loader.FeedByte(data);
        }
        count := count + 1;
        if count == size + 4 { r := EndPacket(); }
      }
    }
  }

  /** `download` over a compressed line that may end: the result is what the byte-wise
      machine, and so the packet-wise reference, makes of the decompressed bytes. */
  method DownloadImage(line: Decompressor, mem: map<nat, nat>) returns (r: Option<nat>, mem': map<nat, nat>)
    requires line.Valid() && OnTrack(line.input, line.window, line.hist, line.uart, line.left, line.bits)
    requires line.returned == 0
    modifies line, line.textBuf
    ensures match RunAll(Boot(mem), Lzss.Decoded(line.window, line.input))
            case Returned(a, l) => r == Some(a) && mem' == l.mem
            case Running(m) => r == None && mem' == m.loader.mem
  {
    ghost var bytes := Lzss.Decoded(line.window, line.input);
    var packets := new PacketReceiver(mem);
    while true
      invariant line.Valid() && OnTrack(line.input, line.window, line.hist, line.uart, line.left, line.bits)
      invariant fresh(packets) && fresh(packets.loader) && line.returned <= |bytes|
      invariant RunAll(Boot(mem), bytes[..line.returned]) == Running(packets.State())
      decreases |bytes| - line.returned
    {
      var c := line.GetByte();
      if c.None? {
        assert bytes[..|bytes|] == bytes;
        return None, packets.loader.mem;
      }
      ReceiveStep(Boot(mem), bytes, line.returned - 1, packets.State());
      r := packets.Receive(c.value);
      if r.Some? { return r, packets.loader.mem; }
    }
  }

  /** One more byte: the run goes on, or it has returned and the rest of the line does not matter. */
  lemma ReceiveStep(o: Outcome, s: seq<byte>, k: nat, m: Machine)
    requires k < |s| && RunAll(o, s[..k]) == Running(m)
    ensures var o' := Advance(Running(m), s[k]);
            RunAll(o, s[..k + 1]) == o' && (o'.Returned? ==> RunAll(o, s) == o')
  {
    assert s[..k + 1][..k] == s[..k];
    SplitRun(o, s, k + 1);
    if RunAll(o, s[..k + 1]).Returned? { ReturnedStays(RunAll(o, s[..k + 1]), s[k + 1..]); }
  }

  /** From program to memory: any compression of any packetisation of a program, followed by
      anything, starts that program with its sections in place. */
  lemma EndToEnd(window: seq<byte>, mem: map<nat, nat>, p: Program, ps: seq<Payload>,
                 rest: seq<byte>, tokens: seq<Lzss.Token>, w: nat)
    requires |window| == Lzss.N && (forall t <- tokens :: Lzss.ValidToken(t))
    requires Lzss.Describes(tokens, window + (Stream(ps) + rest), Lzss.N)
    requires ValidProgram(p) && Joined(ps) == ProgramBytes(p)
    ensures var o := RunAll(Boot(mem), Lzss.Decoded(window, Lzss.Serialize(tokens)));
            o.Returned? && o.address == p.entry && ImageAt(mem, p.sections, o.loader.mem, w)
  {
    Lzss.EncodingDecodes(window, Stream(ps) + rest, tokens);
    DeliversImage(mem, p, ps, rest, w);
  }
}
