/** The writer and the reader of FLV files. */
module FlvFile {
  import opened Bytes
  import opened FlvFrame
  import opened FlvModel
  import opened FlvFileModel
  import Amf0 = Amf0Model

  class FlvWriter {
    var sink: seq<byte>
    var prevTagSize: nat
    var bytesWritten: nat
    var finished: bool
    const flags: Flags
    /** All tags written so far. */
    ghost var items: seq<Item>

    ghost predicate Valid()
      reads this
    {
      && sink == Preamble(flags) + Framings(items) && bytesWritten == |sink|
      && (forall i :: 0 <= i < |items| ==> Writable(items[i]))
      && prevTagSize == if items == [] then 0 else HEADER_SIZE + |Payload(items[|items| - 1])|
    }

    constructor (f: Flags)
      ensures Valid() && flags == f && items == [] && !finished
    {
      flags := f;
      sink := FileHeader(f) + BE(4, 0);
      prevTagSize, bytesWritten, finished := 0, FILE_HEADER_SIZE + 4, false;
      items := [];
    }

    /** Writes a framed body and its back pointer, unless it is too long or the writer is finished. */
    method WritePayload(kind: byte, time: u32, body: seq<byte>, ghost item: Item) returns (ok: bool)
      requires Valid() && kind == KindByte(item) && time == item.time && body == Payload(item)
      modifies this
      ensures Valid() && finished == old(finished)
      ensures ok == (!finished && |body| <= UI24_MAX)
      ensures items == if ok then old(items) + [item] else old(items)
      ensures sink == if ok then old(sink) + BuildFrame(kind, time, body) else old(sink)
    {
      hide BuildHeader, BE, Payload, KindByte;
      if finished || |body| > UI24_MAX {
        return false;
      }
      var tag := BuildHeader(kind, |body|, time) + body;
      sink := sink + tag;
      sink := sink + BE(4, |tag|);
      prevTagSize := |tag|;
      bytesWritten := bytesWritten + |tag| + 4;
      items := items + [item];
      assert items[..|items| - 1] == old(items);
      Appended(old(sink), BuildHeader(kind, |body|, time), body, BE(4, |tag|));
      Assoc3(Preamble(flags), Framings(old(items)), Framing(item));
      return true;
    }

    method WriteVideoTag(time: u32, tag: VideoTag) returns (ok: bool)
      requires Valid()
      modifies this
      ensures Valid() && finished == old(finished)
      ensures items == if ok then old(items) + [VideoItem(time, tag)] else old(items)
      ensures ok == (!finished && |BuildVideo(tag)| <= UI24_MAX)
    {
      ok := WritePayload(VIDEO, time, BuildVideo(tag), VideoItem(time, tag));
    }

    method WriteAudioTag(time: u32, tag: AudioTag) returns (ok: bool)
      requires Valid()
      modifies this
      ensures Valid() && finished == old(finished)
      ensures items == if ok then old(items) + [AudioItem(time, tag)] else old(items)
      ensures ok == (!finished && |BuildAudio(tag)| <= UI24_MAX)
    {
      ok := WritePayload(AUDIO, time, BuildAudio(tag), AudioItem(time, tag));
    }

    method WriteScriptData(time: u32, name: seq<byte>, value: Amf0.Value) returns (ok: bool)
      requires Valid()
      modifies this
      ensures Valid() && finished == old(finished)
      ensures items == if ok then old(items) + [ScriptItem(time, name, value)] else old(items)
      ensures ok == (!finished && |Payload(ScriptItem(time, name, value))| <= UI24_MAX)
    {
      var body := Amf0.Encode(Amf0.Str(name)) + Amf0.Encode(value);
      ok := WritePayload(SCRIPT, time, body, ScriptItem(time, name, value));
    }

    method WriteRawTag(kind: byte, time: u32, body: seq<byte>) returns (ok: bool)
      requires Valid()
      modifies this
      ensures Valid() && finished == old(finished)
      ensures items == if ok then old(items) + [UnknownItem(kind, time, body)] else old(items)
      ensures ok == (!finished && |body| <= UI24_MAX)
    {
      ok := WritePayload(kind, time, body, UnknownItem(kind, time, body));
    }

    method WriteEncryptedTag(kind: byte, time: u32, body: seq<byte>) returns (ok: bool)
      requires Valid()
      modifies this
      ensures Valid() && finished == old(finished)
      ensures items == if ok then old(items) + [EncryptedItem(kind, time, body)] else old(items)
      ensures ok == (!finished && |body| <= UI24_MAX)
    {
      ok := WritePayload(kind % 32 + 32, time, body, EncryptedItem(kind, time, body));
    }

    method Finish() returns (file: seq<byte>)
      requires Valid()
      modifies this
      ensures Valid() && finished && items == old(items) && file == sink == old(sink)
    {
      finished := true;
      return sink;
    }
  }

  lemma Appended(s: seq<byte>, head: seq<byte>, body: seq<byte>, p: seq<byte>)
    ensures s + (head + body) + p == s + (head + (body + p))
  {
  }

  datatype ReadResult = Next(item: Item) | EndOfFile | Failed

  class FlvReader {
    var inner: seq<byte>
    var lastTagSize: nat
    var exhausted: bool
    var bytesRead: nat
    const flags: Flags
    const maxTagSize: nat
    const ctx: Context

    constructor Over(rest: seq<byte>, f: Flags, max: nat, counted: nat, c: Context)
      ensures inner == rest && flags == f && maxTagSize == Min(max, UI24_MAX) && bytesRead == counted
      ensures ctx == c && lastTagSize == 0 && !exhausted
    {
      inner, flags, maxTagSize, bytesRead, ctx := rest, f, Min(max, UI24_MAX), counted, c;
      lastTagSize, exhausted := 0, false;
    }

    /** A stream that ends too early is drained. */
    method ReadExact(n: nat) returns (r: Option<seq<byte>>)
      modifies this`inner
      ensures match r
              case Some(b) => n <= |old(inner)| && b == old(inner)[..n] && inner == old(inner)[n..]
              case None => |old(inner)| < n && inner == []
    {
      if |inner| < n {
        inner := [];
        return None;
      }
      r := Some(inner[..n]);
      inner := inner[n..];
    }

    /** The next tag. A clean end is remembered. */
    method ReadTag() returns (r: ReadResult)
      modifies this
      ensures old(exhausted) ==> r == EndOfFile && inner == old(inner) && bytesRead == old(bytesRead) && exhausted
      ensures !old(exhausted) ==>
                match ReadNext(old(inner), maxTagSize, ctx)
                case Tag(item, size, rest) =>
                  && r == ReadResult.Next(item) && inner == rest && !exhausted && lastTagSize == HEADER_SIZE + size
                  && bytesRead - old(bytesRead) == |old(inner)| - |inner|
                case Clean => r == EndOfFile && inner == [] && exhausted && bytesRead == old(bytesRead)
                case Broken(rest, counted) => r == Failed && inner == rest && bytesRead == old(bytesRead) + counted
    {
      hide Interpret, UnBE, ParseHeader;
      if exhausted {
        return EndOfFile;
      }
      if inner == [] {
        exhausted := true;
        return EndOfFile;
      }
      var header := ReadExact(HEADER_SIZE);
      if header.None? { return Failed; }
      bytesRead := bytesRead + HEADER_SIZE;
      var h := ParseHeader(header.value);
      if h.size > maxTagSize { return Failed; }
      if h.streamId != 0 { return Failed; }
      var body := ReadExact(h.size);
      if body.None? { return Failed; }
      bytesRead := bytesRead + h.size;
      var prev := ReadExact(4);
      if prev.None? { return Failed; }
      if UnBE(prev.value) != HEADER_SIZE + h.size { return Failed; }
      bytesRead := bytesRead + 4;
      lastTagSize := HEADER_SIZE + h.size;
      var item := Interpret(h.kind, h.time, body.value, ctx);
      if item.None? { return Failed; }
      return ReadResult.Next(item.value);
    }

    /** All tags up to the end. */
    method ReadAll() returns (r: Option<seq<Item>>)
      modifies this
      ensures old(exhausted) ==> r == Some([]) && exhausted && inner == old(inner) && bytesRead == old(bytesRead)
      ensures !old(exhausted) ==> r == ReadItems(old(inner), maxTagSize, ctx)
      ensures !old(exhausted) && r.Some? ==> exhausted && inner == [] && bytesRead == old(bytesRead) + |old(inner)|
    {
      hide ReadNext;
      var out: seq<Item> := [];
      if exhausted {
        return Some(out);
      }
      Prepended([], ReadItems(inner, maxTagSize, ctx));
      while true
        invariant !exhausted && bytesRead + |inner| == old(bytesRead) + |old(inner)|
        invariant ReadItems(old(inner), maxTagSize, ctx) == Prepend(out, ReadItems(inner, maxTagSize, ctx))
        decreases |inner|
      {
        ghost var was := inner;
        var t := ReadTag();
        match t {
          case EndOfFile =>
            EndsClean(was, maxTagSize, ctx);
            Prepended(out, Some([]));
            return Some(out);
          case Failed =>
            return None;
          case Next(item) =>
            PrependMore(out, item, ReadItems(inner, maxTagSize, ctx));
            out := out + [item];
        }
      }
    }
  }

  lemma EndsClean(w: seq<byte>, maxSize: nat, ctx: Context)
    requires ReadNext(w, maxSize, ctx) == Clean
    ensures w == []
  {
  }

  /** Opens a file, past its header and the first back pointer. */
  method Open(file: seq<byte>, maxTagSize: nat, ctx: Context) returns (r: Option<FlvReader>)
    ensures match ReadPreamble(file)
            case Short => r == None
            case Got(flags, rest) =>
              && r.Some? && fresh(r.value) && r.value.inner == rest && r.value.flags == flags && r.value.ctx == ctx
              && r.value.maxTagSize == Min(maxTagSize, UI24_MAX) && !r.value.exhausted
              && r.value.bytesRead == |file| - |rest|
  {
    hide UnBE;
    if |file| < FILE_HEADER_SIZE { return None; }
    var header, rest := file[..FILE_HEADER_SIZE], file[FILE_HEADER_SIZE..];
    assert file[..4] == header[..4] && file[4] == header[4] && file[5..9] == header[5..9];
    if header[..4] != [0x46, 0x4C, 0x56, 1] { return None; }
    var offset := UnBE(header[5..9]);
    if offset < FILE_HEADER_SIZE { return None; }
    var counted := FILE_HEADER_SIZE;
    var skip := offset - FILE_HEADER_SIZE;
    if |rest| < skip { return None; }
    rest := rest[skip..];
    counted := counted + skip;
    assert rest == file[offset..];
    if |rest| < 4 { return None; }
    assert rest[..4] == file[offset..offset + 4];
    if UnBE(rest[..4]) != 0 { return None; }
    assert rest[4..] == file[offset + 4..];
    var reader := new FlvReader.Over(rest[4..], Flags(header[4] / 4 % 2 == 1, header[4] % 2 == 1), maxTagSize, counted + 4, ctx);
    return Some(reader);
  }

  /** What a writer has written reads back as the same tags, to a clean end, with the same count of
      octets, exactly when each tag has a place in a file. */
  method WrittenReadsBack(w: FlvWriter, ctx: Context) returns (r: Option<seq<Item>>, read: nat)
    requires w.Valid()
    ensures r == Some(w.items) <==> forall i :: 0 <= i < |w.items| ==> ItemOk(w.items[i], ctx)
    ensures r == Some(w.items) ==> read == w.bytesWritten
  {
    hide Payload, ItemOk, ReadItems, Framings, Preamble, ReadPreamble;
    PreambleRead(w.flags, Framings(w.items));
    var reader := Open(w.sink, UI24_MAX, ctx);
    r := reader.value.ReadAll();
    read := reader.value.bytesRead;
    ItemsExact(w.items, UI24_MAX, ctx);
  }
}
