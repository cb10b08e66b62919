/** FLV files: a header, then frames with audio, video, script data or anything else. */
module FlvFileModel {
  import opened Bytes
  import opened FlvFrame
  import opened FlvModel
  import opened FlvRoundTrip
  import Amf0 = Amf0Model
  import Amf0RoundTrip

  const AUDIO: byte := 8
  const VIDEO: byte := 9
  const SCRIPT: byte := 18
  const FILE_HEADER_SIZE := 9

  datatype Flags = Flags(audio: bool, video: bool)

  datatype Item =
    | AudioItem(time: u32, audio: AudioTag)
    | VideoItem(time: u32, video: VideoTag)
    | ScriptItem(time: u32, name: seq<byte>, value: Amf0.Value)
    | UnknownItem(kind: byte, time: u32, body: seq<byte>)
    | EncryptedItem(kind: byte, time: u32, body: seq<byte>)

  /** What is left open: how doubles are printed, and which bodies begin with an encryption envelope. */
  datatype Context = Context(show: Amf0.ShowDouble, sealed: seq<byte> -> bool)

  // ----------------------------------------------------------------------- writing

  function FlagsByte(f: Flags): byte {
    (if f.audio then 4 else 0) + (if f.video then 1 else 0)
  }

  function FileHeader(f: Flags): (s: seq<byte>)
    ensures |s| == FILE_HEADER_SIZE
  {
    [0x46, 0x4C, 0x56, 1, FlagsByte(f)] + BE(4, FILE_HEADER_SIZE)
  }

  function Preamble(f: Flags): (s: seq<byte>)
    ensures |s| == FILE_HEADER_SIZE + 4
  {
    FileHeader(f) + BE(4, 0)
  }

  /** The octet before the size, with the bit that marks encrypted bodies. */
  function KindByte(item: Item): byte {
    match item
    case AudioItem(_, _) => AUDIO
    case VideoItem(_, _) => VIDEO
    case ScriptItem(_, _, _) => SCRIPT
    case UnknownItem(kind, _, _) => kind
    case EncryptedItem(kind, _, _) => kind % 32 + 32
  }

  function Payload(item: Item): seq<byte> {
    match item
    case AudioItem(_, tag) => BuildAudio(tag)
    case VideoItem(_, tag) => BuildVideo(tag)
    case ScriptItem(_, name, value) => Amf0.Encode(Amf0.Str(name)) + Amf0.Encode(value)
    case UnknownItem(_, _, body) => body
    case EncryptedItem(_, _, body) => body
  }

  function Framing(item: Item): seq<byte> {
    BuildFrame(KindByte(item), item.time, Payload(item))
  }

  function Framings(items: seq<Item>): seq<byte> {
    if items == [] then [] else Framings(items[..|items| - 1]) + Framing(items[|items| - 1])
  }

  // ----------------------------------------------------------------------- reading

  /** A name and a value; what follows them is ignored. */
  function ParseScript(w: seq<byte>, show: Amf0.ShowDouble): Option<(seq<byte>, Amf0.Value)> {
    match Amf0.Decode(w, 0, [], show)
    case Bad => None
    case Ok(name, w1, _) =>
      if !name.Str? then None
      else
        match Amf0.Decode(w1, 0, [], show)
        case Bad => None
        case Ok(value, _, _) => Some((name.text, value))
  }

  function Interpret(kindByte: byte, time: u32, body: seq<byte>, ctx: Context): Option<Item> {
    var kind := kindByte % 32;
    if kindByte / 32 % 2 == 1 then (if ctx.sealed(body) then Some(EncryptedItem(kind, time, body)) else None)
    else if kind == AUDIO then (match ParseAudio(body) case None => None case Some(tag) => Some(AudioItem(time, tag)))
    else if kind == VIDEO then (match ParseVideo(body) case None => None case Some(tag) => Some(VideoItem(time, tag)))
    else if kind == SCRIPT then
      (match ParseScript(body, ctx.show)
       case None => Some(UnknownItem(kind, time, body))
       case Some((name, value)) => Some(ScriptItem(time, name, value)))
    else Some(UnknownItem(kind, time, body))
  }

  /** The next tag; a clean end; or a failure, with what is left and how much was counted as read. */
  datatype Next = Tag(item: Item, size: nat, rest: seq<byte>) | Clean | Broken(rest: seq<byte>, counted: nat)

  function ReadNext(w: seq<byte>, maxSize: nat, ctx: Context): (r: Next)
    ensures r.Tag? ==> |r.rest| + HEADER_SIZE + r.size + 4 == |w|
  {
    if w == [] then Clean
    else if |w| < HEADER_SIZE then Broken([], 0)
    else
      var h, w1 := ParseHeader(w[..HEADER_SIZE]), w[HEADER_SIZE..];
      if h.size > maxSize || h.streamId != 0 then Broken(w1, HEADER_SIZE)
      else if |w1| < h.size then Broken([], HEADER_SIZE)
      else
        var body, w2 := w1[..h.size], w1[h.size..];
        if |w2| < 4 then Broken([], HEADER_SIZE + h.size)
        else if UnBE(w2[..4]) != HEADER_SIZE + h.size then Broken(w2[4..], HEADER_SIZE + h.size)
        else
          match Interpret(h.kind, h.time, body, ctx)
          case None => Broken(w2[4..], HEADER_SIZE + h.size + 4)
          case Some(item) => Tag(item, h.size, w2[4..])
  }

  function ReadItems(w: seq<byte>, maxSize: nat, ctx: Context): Option<seq<Item>>
    decreases |w|
  {
    match ReadNext(w, maxSize, ctx)
    case Clean => Some([])
    case Broken(_, _) => None
    case Tag(item, _, rest) =>
      match ReadItems(rest, maxSize, ctx)
      case None => None
      case Some(items) => Some([item] + items)
  }

  /** The flags, and where the first frame begins; padding behind the header is skipped. */
  function ReadPreamble(w: seq<byte>): (r: Got<Flags>)
    ensures r.Got? ==> |r.rest| + FILE_HEADER_SIZE + 4 <= |w| && r.rest == w[|w| - |r.rest|..]
  {
    if |w| < FILE_HEADER_SIZE || w[..4] != [0x46, 0x4C, 0x56, 1] then Short
    else
      var offset := UnBE(w[5..9]);
      if offset < FILE_HEADER_SIZE || |w| < offset + 4 || UnBE(w[offset..offset + 4]) != 0 then Short
      else Got(Flags(w[4] / 4 % 2 == 1, w[4] % 2 == 1), w[offset + 4..])
  }

  // --------------------------------------------------------------------- the laws

  /** Items that have a place in a file. */
  predicate ItemOk(item: Item, ctx: Context) {
    match item
    case AudioItem(_, tag) => AudioOk(tag)
    case VideoItem(_, tag) => VideoOk(tag)
    case ScriptItem(_, name, value) => Amf0RoundTrip.TextOk(name) && Amf0RoundTrip.Encodable(value, Amf0.MAX_DEPTH)
    case UnknownItem(kind, _, body) =>
      kind < 32 && kind != AUDIO && kind != VIDEO && (kind == SCRIPT ==> ParseScript(body, ctx.show).None?)
    case EncryptedItem(kind, _, body) => kind < 32 && ctx.sealed(body)
  }

  /** A name and a value come back whatever follows them. */
  lemma ScriptExact(name: seq<byte>, value: Amf0.Value, more: seq<byte>, show: Amf0.ShowDouble)
    ensures ParseScript(Amf0.Encode(Amf0.Str(name)) + (Amf0.Encode(value) + more), show) == Some((name, value)) <==>
            Amf0RoundTrip.TextOk(name) && Amf0RoundTrip.Encodable(value, Amf0.MAX_DEPTH)
  {
    hide Amf0.Decode, Amf0.Encode, Amf0RoundTrip.TextOk;
    Amf0RoundTrip.Exact(Amf0.Str(name), 0, [], show, Amf0.Encode(value) + more);
    Amf0RoundTrip.Exact(value, 0, [], show, more);
  }

  /** A name that is no string makes no script. */
  lemma ScriptNeedsName(name: Amf0.Value, more: seq<byte>, show: Amf0.ShowDouble)
    requires !name.Str? && Amf0RoundTrip.Encodable(name, Amf0.MAX_DEPTH)
    ensures ParseScript(Amf0.Encode(name) + more, show) == None
  {
    hide Amf0.Decode, Amf0.Encode, Amf0RoundTrip.WellFormed, Amf0RoundTrip.Nesting;
    Amf0RoundTrip.Exact(name, 0, [], show, more);
  }

  /** The body of an item is read as that item exactly when it has a place in a file. */
  lemma ItemExact(item: Item, ctx: Context)
    ensures Interpret(KindByte(item), item.time, Payload(item), ctx) == Some(item) <==> ItemOk(item, ctx)
  {
    hide ParseAudio, BuildAudio, AudioOk, ParseVideo, BuildVideo, VideoOk, ParseScript, Amf0.Encode, Amf0RoundTrip.Encodable,
      Amf0RoundTrip.TextOk;
    match item {
      case AudioItem(_, tag) => AudioExact(tag);
      case VideoItem(_, tag) => VideoExact(tag);
      case ScriptItem(_, name, value) =>
        ScriptExact(name, value, [], ctx.show);
        assert Amf0.Encode(value) + [] == Amf0.Encode(value);
      case UnknownItem(kind, _, _) =>
      case EncryptedItem(kind, _, _) =>
    }
  }

  lemma FramingRead(item: Item, maxSize: nat, ctx: Context, tail: seq<byte>)
    requires |Payload(item)| <= UI24_MAX
    ensures ReadNext(Framing(item) + tail, maxSize, ctx) ==
            if |Payload(item)| > maxSize then Broken((Framing(item) + tail)[HEADER_SIZE..], HEADER_SIZE)
            else match Interpret(KindByte(item), item.time, Payload(item), ctx)
                 case None => Broken(tail, |Framing(item)|)
                 case Some(i) => Tag(i, |Payload(item)|, tail)
  {
    hide Interpret, Payload, KindByte, ParseHeader, BuildHeader, BackPointer, UnBE;
    var kind, body := KindByte(item), Payload(item);
    var h, p := BuildHeader(kind, |body|, item.time), BackPointer(|body|);
    Assoc3(h, body + p, tail);
    Assoc3(body, p, tail);
    SplitAt(h, body + (p + tail));
    SplitAt(body, p + tail);
    SplitAt(p, tail);
    HeaderRead(kind, |body|, item.time);
    BackPointerRead(|body|);
  }

  lemma {:induction false} FramingsCons(items: seq<Item>)
    requires items != []
    ensures Framings(items) == Framing(items[0]) + Framings(items[1..])
    decreases |items|
  {
    hide Framing;
    var n := |items| - 1;
    if n == 0 {
      assert items[..0] == [] && items[1..] == [];
    } else {
      FramingsCons(items[..n]);
      assert items[..n][1..] == items[1..][..n - 1];
      Assoc3(Framing(items[0]), Framings(items[1..][..n - 1]), Framing(items[n]));
    }
  }

  /** Whether the writer takes an item. */
  predicate Writable(item: Item) {
    |Payload(item)| <= UI24_MAX
  }

  predicate Readable(item: Item, maxSize: nat, ctx: Context) {
    |Payload(item)| <= maxSize && ItemOk(item, ctx)
  }

  lemma ItemRead(item: Item, maxSize: nat, ctx: Context, tail: seq<byte>)
    requires Writable(item)
    ensures var r := ReadNext(Framing(item) + tail, maxSize, ctx);
            && r != Clean && (r.Tag? ==> r.rest == tail)
            && (r.Tag? && r.item == item <==> Readable(item, maxSize, ctx))
  {
    hide ReadNext, Framing, Payload, Interpret, ItemOk, KindByte;
    FramingRead(item, maxSize, ctx, tail);
    ItemExact(item, ctx);
  }

  /** The tags of a file come back, up to a clean end, exactly when each has its place in a file and
      the reader allows its size. */
  lemma {:induction false} ItemsExact(items: seq<Item>, maxSize: nat, ctx: Context)
    requires forall i :: 0 <= i < |items| ==> Writable(items[i])
    ensures ReadItems(Framings(items), maxSize, ctx) == Some(items) <==> forall i :: 0 <= i < |items| ==> Readable(items[i], maxSize, ctx)
    decreases |items|
  {
    hide ReadNext, Framing, Writable, Readable;
    if items == [] {
      NothingRead(maxSize, ctx);
    } else {
      var more := items[1..];
      FramingsCons(items);
      ItemRead(items[0], maxSize, ctx, Framings(more));
      ItemsExact(more, maxSize, ctx);
      var r := ReadNext(Framings(items), maxSize, ctx);
      if r.Tag? {
        var rest := ReadItems(r.rest, maxSize, ctx);
        if rest.Some? {
          ConsIff(r.item, rest.value, items);
        }
      }
      if forall i :: 0 <= i < |more| ==> Readable(more[i], maxSize, ctx) {
        assert forall i :: 0 < i < |items| ==> items[i] == more[i - 1];
      }
    }
  }

  lemma NothingRead(maxSize: nat, ctx: Context)
    ensures ReadNext([], maxSize, ctx) == Clean
  {
  }

  lemma PreambleRead(f: Flags, tail: seq<byte>)
    ensures ReadPreamble(Preamble(f) + tail) == Got(f, tail)
  {
    hide BE, UnBE;
    Widths();
    UnBEInvertsBE(4, FILE_HEADER_SIZE);
    UnBEInvertsBE(4, 0);
    var w := Preamble(f) + tail;
    var head: seq<byte> := [0x46, 0x4C, 0x56, 1, FlagsByte(f)];
    var at, zero := BE(4, FILE_HEADER_SIZE), BE(4, 0);
    Assoc4(head, at, zero, tail);
    SplitAt(head, at + (zero + tail));
    SplitAt(at, zero + tail);
    SplitAt(zero, tail);
    assert w[..4] == head[..4];
    assert w[5..9] == w[5..][..4];
    assert w[9..13] == w[5..][4..][..4] && w[13..] == w[5..][4..][4..];
  }

  // ---------------------------------------------------------------- octet by octet

  /** The front of a file: signature, version, flags, the size of the header, a zero back pointer. */
  lemma PreambleOctets(f: Flags)
    ensures Preamble(f) == [0x46, 0x4C, 0x56, 1, (if f.audio then 4 else 0) + (if f.video then 1 else 0), 0, 0, 0, 9, 0, 0, 0, 0]
  {
    hide BE;
    UI32Is(9);
    UI32Is(0);
  }

  /** A longer header is skipped; in its flags bits 2 and 0 count. */
  lemma PaddedPreamble(flags: byte, padding: seq<byte>, tail: seq<byte>)
    requires |padding| < 0x1_0000_0000 - 9
    ensures ReadPreamble([0x46, 0x4C, 0x56, 1, flags] + (UI32(9 + |padding|) + (padding + ([0, 0, 0, 0] + tail))))
         == Got(Flags(flags / 4 % 2 == 1, flags % 2 == 1), tail)
  {
    hide BE, UnBE, UI32;
    Widths();
    var offset: u32 := 9 + |padding|;
    UI32Is(offset);
    UnBEInvertsBE(4, offset);
    UI32Is(0);
    UI32Zero();
    UnBEInvertsBE(4, 0);
    var head: seq<byte> := [0x46, 0x4C, 0x56, 1, flags];
    var zero: seq<byte> := [0, 0, 0, 0];
    var w := head + (UI32(offset) + (padding + (zero + tail)));
    SplitAt(head, UI32(offset) + (padding + (zero + tail)));
    SplitAt(UI32(offset), padding + (zero + tail));
    SplitAt(padding, zero + tail);
    SplitAt(zero, tail);
    assert w[..4] == head[..4];
    assert w[5..9] == w[5..][..4];
    assert w[offset..] == w[5..][4..][|padding|..];
    assert w[offset..offset + 4] == w[offset..][..4] && w[offset + 4..] == w[offset..][4..];
  }

  lemma UI32Zero()
    ensures UI32(0) == [0, 0, 0, 0]
  {
  }

  /** Another signature or version, a header that ends too early, or a back pointer is refused. */
  lemma PreambleRefused(w: seq<byte>)
    ensures |w| >= 4 && w[..4] != [0x46, 0x4C, 0x56, 1] ==> ReadPreamble(w) == Short
    ensures |w| < 13 ==> ReadPreamble(w) == Short
    ensures |w| >= 9 && UnBE(w[5..9]) < 9 ==> ReadPreamble(w) == Short
  {
  }

  /** The first octet of a tag tells its kind: 8, 9 and 18 are audio, video and script data, any other
      five-bit kind is kept as it is; bit 5 marks an encrypted body, and the two above it do not count. */
  lemma KindsSay(high: nat, kind: nat, time: u32, body: seq<byte>, ctx: Context)
    requires high < 4 && kind < 32
    ensures Interpret(high * 64 + 32 + kind, time, body, ctx) == if ctx.sealed(body) then Some(EncryptedItem(kind, time, body)) else None
    ensures var r := Interpret(high * 64 + kind, time, body, ctx);
            if kind == 8 then (match ParseAudio(body) case None => r == None case Some(tag) => r == Some(AudioItem(time, tag)))
            else if kind == 9 then (match ParseVideo(body) case None => r == None case Some(tag) => r == Some(VideoItem(time, tag)))
            else if kind == 18 && ParseScript(body, ctx.show).Some? then
              r == Some(ScriptItem(time, ParseScript(body, ctx.show).value.0, ParseScript(body, ctx.show).value.1))
            else r == Some(UnknownItem(kind, time, body))
  {
    hide ParseAudio, ParseVideo, ParseScript;
    var b := high * 64 + kind;
    assert b / 32 == high * 2 && b % 32 == kind;
    assert (b + 32) / 32 == high * 2 + 1 && (b + 32) % 32 == kind;
  }

  lemma KindOctets(item: Item)
    ensures match item
            case AudioItem(_, _) => KindByte(item) == 8
            case VideoItem(_, _) => KindByte(item) == 9
            case ScriptItem(_, _, _) => KindByte(item) == 18
            case UnknownItem(kind, _, _) => KindByte(item) == kind
            case EncryptedItem(kind, _, _) => KindByte(item) == 32 + kind % 32
  {
  }

  /** A tag whose stream id is not zero, or whose back pointer is wrong, stops the reader. */
  lemma BadTagStops(kind: byte, time: u32, streamId: u24, body: seq<byte>, pointer: u32, maxSize: nat, ctx: Context, tail: seq<byte>)
    requires |body| <= maxSize && |body| <= UI24_MAX && (streamId != 0 || pointer != HEADER_SIZE + |body|)
    ensures ReadNext(HeaderWith(kind, |body|, time, streamId) + (body + (UI32(pointer) + tail)), maxSize, ctx).Broken?
  {
    hide UnBE, BE, UI32, Interpret, HeaderWith, ParseHeader;
    Widths();
    var h := HeaderWith(kind, |body|, time, streamId);
    HeaderMeans(kind, |body|, time, streamId);
    UI32Is(pointer);
    UnBEInvertsBE(4, pointer);
    SplitAt(h, body + (UI32(pointer) + tail));
    SplitAt(body, UI32(pointer) + tail);
    SplitAt(UI32(pointer), tail);
  }

  /** A tag cut off anywhere is a failure that leaves nothing; header and body count as read when they
      are complete. */
  lemma CutOff(kind: byte, time: u32, body: seq<byte>, n: nat, maxSize: nat, ctx: Context)
    requires |body| <= maxSize && |body| <= UI24_MAX && 0 < n < 11 + |body| + 4
    ensures ReadNext(BuildFrame(kind, time, body)[..n], maxSize, ctx)
         == Broken([], if n < 11 then 0 else if n < 11 + |body| then 11 else 11 + |body|)
  {
    hide UnBE, Interpret, ParseHeader, BuildHeader, BackPointer;
    var h := BuildHeader(kind, |body|, time);
    var w := BuildFrame(kind, time, body)[..n];
    if n >= 11 {
      HeaderRead(kind, |body|, time);
      assert w[..11] == h;
    }
  }

  /** A file cut off inside a tag is not read as a shorter file. */
  lemma {:induction false} CutFileFails(items: seq<Item>, last: Item, n: nat, maxSize: nat, ctx: Context)
    requires forall i :: 0 <= i < |items| ==> Writable(items[i]) && Readable(items[i], maxSize, ctx)
    requires |Payload(last)| <= maxSize && Writable(last) && 0 < n < |Framing(last)|
    ensures ReadItems(Framings(items) + Framing(last)[..n], maxSize, ctx) == None
    decreases |items|
  {
    hide ReadNext, Readable, Payload, KindByte;
    var cut := Framing(last)[..n];
    if items == [] {
      assert Framings(items) + cut == cut;
      CutOff(KindByte(last), last.time, Payload(last), n, maxSize, ctx);
    } else {
      var more := items[1..];
      FramingsCons(items);
      Assoc3(Framing(items[0]), Framings(more), cut);
      ItemRead(items[0], maxSize, ctx, Framings(more) + cut);
      CutFileFails(more, last, n, maxSize, ctx);
    }
  }
}
