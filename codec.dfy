/**
 * The A2S_INFO reply as a server lays it out (`Encode`, the inverse of the
 * decoder), and the properties that tie the decoder `Response` to it: every well-formed record is decoded back from
 * its layout, every successful decode consumed exactly the layout of what it
 * returned, bytes after a reply are ignored, a cut-off reply fails with
 * `EOF`, and a wrong marker or tag fails with `UnexpectedResponse`.
 */
module Codec {
  import opened Wire
  import opened Cursor
  import opened HldsInfo

  /**
   * One field of a reply and the value it carries, by the cursor read that
   * decodes it. The `Opt` kinds are the optional fields: on the wire only
   * when `present`.
   */
  datatype Field =
    | U8(b: Byte)
    | Char(c: seq<Byte>)
    | U16(v: u16)
    | Str(str: seq<Byte>)
    | OptU16(present: bool, ov16: u16)
    | OptU64(present: bool, ov64: u64)
    | OptStr(present: bool, ostr: seq<Byte>)

  /** The bytes of a field on the wire. */
  function FieldBytes(f: Field): seq<Byte>
  {
    match f
    case U8(b) => [b]
    case Char(c) => [CharByte(c)]
    case U16(v) => LeBytes(v as nat, 2)
    case Str(str) => str + [0]
    case OptU16(present, v) => if present then LeBytes(v as nat, 2) else []
    case OptU64(present, v) => if present then LeBytes(v as nat, 8) else []
    case OptStr(present, str) => if present then str + [0] else []
  }

  /**
   * A value the field can carry: strings hold no NUL, a `readChar` string is
   * Go's conversion of one byte, and an absent optional field is zero.
   */
  predicate FieldOk(f: Field)
  {
    match f
    case U8(_) => true
    case Char(c) => IsCharString(c)
    case U16(_) => true
    case Str(str) => NulFree(str)
    case OptU16(present, v) => present || v == 0
    case OptU64(present, v) => present || v == 0
    case OptStr(present, str) => NulFree(str) && (present || str == [])
  }

  /** The read of the field's kind, started at `off`, returns the field's value and stops at `next`. */
  predicate Reads(s: seq<Byte>, off: nat, f: Field, next: nat)
  {
    match f
    case U8(b) => ByteAt(s, off) == Ok(Read(b, next))
    case Char(c) => CharAt(s, off) == Ok(Read(c, next))
    case U16(v) => U16At(s, off) == Ok(Read(v, next))
    case Str(str) => StringAt(s, off) == Ok(Read(str, next))
    case OptU16(present, v) => OptU16At(s, off, present) == Ok(Read(v, next))
    case OptU64(present, v) => OptU64At(s, off, present) == Ok(Read(v, next))
    case OptStr(present, str) => OptStringAt(s, off, present) == Ok(Read(str, next))
  }

  /** Fields laid out one after the other. */
  function Layout(fs: seq<Field>): seq<Byte>
  {
    if fs == [] then [] else FieldBytes(fs[0]) + Layout(fs[1..])
  }

  /** Every field carries a value it can carry. */
  predicate Carried(fs: seq<Field>)
  {
    forall k :: 0 <= k < |fs| ==> FieldOk(fs[k])
  }

  /** Field `k` is read from `os[k]` to `os[k + 1]`. */
  predicate ReadsAll(s: seq<Byte>, fs: seq<Field>, os: seq<nat>)
  {
    |os| == |fs| + 1 && forall k :: 0 <= k < |fs| ==> Reads(s, os[k], fs[k], os[k + 1])
  }

  /** Where each field of a layout starting at `off` begins, and where the layout ends. */
  function Offsets(off: nat, fs: seq<Field>): (os: seq<nat>)
    ensures |os| == |fs| + 1 && os[0] == off && os[|fs|] == off + |Layout(fs)|
    ensures forall k :: 0 <= k < |fs| ==> os[k + 1] == os[k] + |FieldBytes(fs[k])|
    decreases |fs|
  {
    if fs == [] then [off]
    else
      var rest := Offsets(off + |FieldBytes(fs[0])|, fs[1..]);
      assert forall k :: 0 <= k < |fs| - 1 ==> fs[1..][k] == fs[k + 1];
      [off] + rest
  }

  /** The base fields after the header tag, in wire order, ending with EDF. */
  function BaseFields(info: Info): seq<Field>
  {
    [ U8(info.protocol), Str(info.name), Str(info.mapName), Str(info.folder), Str(info.game),
      U16(info.id), U8(info.players), U8(info.maxPlayers), U8(info.bots),
      Char(info.serverType), Char(info.environment), U8(info.visibility), U8(info.vac),
      Str(info.version), U8(info.edf) ]
  }

  /** The optional fields, in the order 0x80, 0x10, 0x40 (port, then name), 0x20, 0x01. */
  function ExtraFields(x: InfoExtra, edf: Byte): seq<Field>
  {
    [ OptU16(Has(edf, EdfPort), x.port),
      OptU64(Has(edf, EdfSteamID), x.steamID),
      OptU16(Has(edf, EdfSourceTV), x.sourceTVPort),
      OptStr(Has(edf, EdfSourceTV), x.sourceTVName),
      OptStr(Has(edf, EdfKeywords), x.keywords),
      OptU64(Has(edf, EdfGameID), x.gameID) ]
  }

  function EncodeBase(info: Info): seq<Byte>
  {
    Layout(BaseFields(info))
  }

  function EncodeExtra(x: InfoExtra, edf: Byte): seq<Byte>
  {
    Layout(ExtraFields(x, edf))
  }

  /** A whole single-packet A2S_INFO reply. */
  function Encode(info: Info): seq<Byte>
  {
    Marker + [info.header] + EncodeBase(info) + EncodeExtra(info.extraData, info.edf)
  }

  /** A record that some reply decodes to. */
  predicate WellFormed(info: Info)
  {
    && info.header == InfoTag
    && Carried(BaseFields(info))
    && Carried(ExtraFields(info.extraData, info.edf))
  }

  // ---------------------------------------------------------------------------
  // One field

  /** A field laid out at `off` is read back. */
  lemma FieldFromWindow(s: seq<Byte>, off: nat, f: Field)
    requires FieldOk(f) && Window(s, off, FieldBytes(f))
    ensures Reads(s, off, f, off + |FieldBytes(f)|)
  {
    match f
    case U8(b) =>
      ByteWindow(s, off, b);
    case Char(c) =>
      ByteWindow(s, off, CharByte(c));
      CharStringOnto(c);
    case U16(v) =>
      UIntFromWindow(s, off, v as nat, 2);
    case Str(str) =>
      StringFromWindow(s, off, str);
    case OptU16(present, v) =>
      if present {
        UIntFromWindow(s, off, v as nat, 2);
      }
    case OptU64(present, v) =>
      if present {
        UIntFromWindow(s, off, v as nat, 8);
      }
    case OptStr(present, str) =>
      if present {
        StringFromWindow(s, off, str);
      }
  }

  /** A field that was read is one a reply can carry, and its layout is what the read consumed. */
  lemma FieldToWindow(s: seq<Byte>, off: nat, f: Field, next: nat)
    requires off <= |s| && Reads(s, off, f, next)
    ensures FieldOk(f) && next == off + |FieldBytes(f)| && Window(s, off, FieldBytes(f))
  {
    match f
    case U8(b) =>
      ByteWindow(s, off, b);
    case Char(c) =>
      ByteWindow(s, off, CharByte(c));
    case U16(v) =>
      UIntAtLayout(s, off, 2);
    case Str(str) =>
      StringToWindow(s, off);
    case OptU16(present, v) =>
      if present {
        UIntAtLayout(s, off, 2);
      }
    case OptU64(present, v) =>
      if present {
        UIntAtLayout(s, off, 8);
      }
    case OptStr(present, str) =>
      if present {
        StringToWindow(s, off);
      }
  }

  // ---------------------------------------------------------------------------
  // A sequence of fields

  /** A first field read before the rest. */
  lemma ReadsAllCons(s: seq<Byte>, fs: seq<Field>, os: seq<nat>)
    requires |fs| > 0 && |os| == |fs| + 1
    requires Reads(s, os[0], fs[0], os[1]) && ReadsAll(s, fs[1..], os[1..])
    ensures ReadsAll(s, fs, os)
  {
    forall k | 0 < k < |fs|
      ensures Reads(s, os[k], fs[k], os[k + 1])
    {
      assert fs[1..][k - 1] == fs[k] && os[1..][k - 1] == os[k] && os[1..][k] == os[k + 1];
    }
  }

  /** The first field of a layout is read back, and the rest of the layout follows it. */
  lemma LayoutHead(s: seq<Byte>, fs: seq<Field>, off: nat, mid: nat)
    requires |fs| > 0 && FieldOk(fs[0]) && Window(s, off, Layout(fs)) && mid == off + |FieldBytes(fs[0])|
    ensures Reads(s, off, fs[0], mid) && Window(s, mid, Layout(fs[1..]))
  {
    var f, rest := fs[0], Layout(fs[1..]);
    assert Layout(fs) == FieldBytes(f) + rest;
    WindowSplit(s, off, FieldBytes(f), rest);
    FieldFromWindow(s, off, f);
  }

  /** What holds of every field holds of the fields after the first. */
  lemma Tail(fs: seq<Field>, os: seq<nat>)
    requires |fs| > 0 && |os| == |fs| + 1
    requires forall k :: 0 <= k < |fs| ==> os[k + 1] == os[k] + |FieldBytes(fs[k])|
    requires Carried(fs)
    ensures forall k :: 0 <= k < |fs[1..]| ==> os[1..][k + 1] == os[1..][k] + |FieldBytes(fs[1..][k])|
    ensures Carried(fs[1..]) && FieldOk(fs[0])
  {
    assert forall k :: 0 <= k < |fs| - 1 ==> fs[1..][k] == fs[k + 1] && os[1..][k] == os[k + 1];
  }

  /** Fields laid out from `os[0]` are read back one after the other. */
  lemma {:induction false} LayoutReads(s: seq<Byte>, fs: seq<Field>, os: seq<nat>)
    requires |os| == |fs| + 1 && forall k :: 0 <= k < |fs| ==> os[k + 1] == os[k] + |FieldBytes(fs[k])|
    requires Carried(fs) && Window(s, os[0], Layout(fs))
    ensures ReadsAll(s, fs, os)
    decreases |fs|
  {
    if fs != [] {
      Tail(fs, os);
      LayoutHead(s, fs, os[0], os[1]);
      assert os[1..][0] == os[1];
      LayoutReads(s, fs[1..], os[1..]);
      ReadsAllCons(s, fs, os);
    }
  }

  /** Fields laid out at `off` are read back, the last one ending where the layout ends. */
  lemma LayoutDecodes(s: seq<Byte>, off: nat, fs: seq<Field>) returns (os: seq<nat>)
    requires Carried(fs) && Window(s, off, Layout(fs))
    ensures ReadsAll(s, fs, os) && os[0] == off && os[|fs|] == off + |Layout(fs)|
  {
    os := Offsets(off, fs);
    LayoutReads(s, fs, os);
  }

  /** A read of the first field and reads of the rest, as reads of the rest alone. */
  lemma ReadsAllTail(s: seq<Byte>, fs: seq<Field>, os: seq<nat>)
    requires |fs| > 0 && ReadsAll(s, fs, os)
    ensures Reads(s, os[0], fs[0], os[1]) && ReadsAll(s, fs[1..], os[1..])
  {
    assert forall k :: 0 <= k < |fs| - 1 ==> fs[1..][k] == fs[k + 1] && os[1..][k] == os[k + 1];
  }

  /** The first field read is laid out, and so are the rest, after it. */
  lemma LayoutJoin(s: seq<Byte>, fs: seq<Field>, off: nat, mid: nat, end: nat)
    requires |fs| > 0 && FieldOk(fs[0]) && mid == off + |FieldBytes(fs[0])| && Window(s, off, FieldBytes(fs[0]))
    requires Carried(fs[1..]) && end == mid + |Layout(fs[1..])| && Window(s, mid, Layout(fs[1..]))
    ensures Carried(fs) && end == off + |Layout(fs)| && Window(s, off, Layout(fs))
  {
    WindowJoin(s, off, FieldBytes(fs[0]), Layout(fs[1..]));
    assert forall k :: 0 < k < |fs| ==> fs[k] == fs[1..][k - 1];
  }

  /** Fields read one after the other from `os[0]` were laid out there. */
  lemma {:induction false} ReadsLayout(s: seq<Byte>, fs: seq<Field>, os: seq<nat>)
    requires ReadsAll(s, fs, os) && os[0] <= |s|
    ensures Carried(fs) && os[|fs|] == os[0] + |Layout(fs)| && Window(s, os[0], Layout(fs))
    decreases |fs|
  {
    if fs != [] {
      ReadsAllTail(s, fs, os);
      FieldToWindow(s, os[0], fs[0], os[1]);
      ReadsLayout(s, fs[1..], os[1..]);
      LayoutJoin(s, fs, os[0], os[1], os[|fs|]);
    }
  }

  // ---------------------------------------------------------------------------
  // The decoder's chains as field lists

  /** Reads of the base fields are what `BaseAt` chains together. */
  lemma BaseFromReads(s: seq<Byte>, info: Info, os: seq<nat>, off: nat, end: nat)
    requires ReadsAll(s, BaseFields(info), os) && os[0] == off && os[|BaseFields(info)|] == end
    ensures BaseAt(s, off, info.header) == Ok(Read(info.(extraData := NoExtra), end))
  {
    var fs := BaseFields(info);
    assert Reads(s, os[0], fs[0], os[1]);
    assert Reads(s, os[1], fs[1], os[2]);
    assert Reads(s, os[2], fs[2], os[3]);
    assert Reads(s, os[3], fs[3], os[4]);
    assert Reads(s, os[4], fs[4], os[5]);
    assert Reads(s, os[5], fs[5], os[6]);
    assert Reads(s, os[6], fs[6], os[7]);
    assert Reads(s, os[7], fs[7], os[8]);
    assert Reads(s, os[8], fs[8], os[9]);
    assert Reads(s, os[9], fs[9], os[10]);
    assert Reads(s, os[10], fs[10], os[11]);
    assert Reads(s, os[11], fs[11], os[12]);
    assert Reads(s, os[12], fs[12], os[13]);
    assert Reads(s, os[13], fs[13], os[14]);
    assert Reads(s, os[14], fs[14], os[15]);
  }

  /** Every read of `BaseAt`'s chain succeeds when the chain does. */
  lemma BaseSteps(s: seq<Byte>, off: nat, header: Byte)
    requires BaseAt(s, off, header).Ok?
    ensures var protocol := ByteAt(s, off);
      && protocol.Ok?
      && var name := StringAt(s, protocol.value.next);
      && name.Ok?
      && var mapName := StringAt(s, name.value.next);
      && mapName.Ok?
      && var folder := StringAt(s, mapName.value.next);
      && folder.Ok?
      && var game := StringAt(s, folder.value.next);
      && game.Ok?
      && var id := U16At(s, game.value.next);
      && id.Ok?
      && var players := ByteAt(s, id.value.next);
      && players.Ok?
      && var maxPlayers := ByteAt(s, players.value.next);
      && maxPlayers.Ok?
      && var bots := ByteAt(s, maxPlayers.value.next);
      && bots.Ok?
      && var serverType := CharAt(s, bots.value.next);
      && serverType.Ok?
      && var environment := CharAt(s, serverType.value.next);
      && environment.Ok?
      && var visibility := ByteAt(s, environment.value.next);
      && visibility.Ok?
      && var vac := ByteAt(s, visibility.value.next);
      && vac.Ok?
      && var version := StringAt(s, vac.value.next);
      && version.Ok?
      && var edf := ByteAt(s, version.value.next);
      && edf.Ok?
  {
  }

  /**
   * A successful `BaseAt` read the base fields in their fixed order, each
   * starting where the one before it stopped.
   */
  lemma BaseOrder(s: seq<Byte>, off: nat, header: Byte) returns (info: Info, os: seq<nat>)
    requires BaseAt(s, off, header).Ok?
    ensures |os| == 16 && BaseAt(s, off, header) == Ok(Read(info, os[15]))
    ensures var v := info;
      && v.header == header && v.extraData == NoExtra && os[0] == off
      && ByteAt(s, os[0]) == Ok(Read(v.protocol, os[1]))
      && StringAt(s, os[1]) == Ok(Read(v.name, os[2]))
      && StringAt(s, os[2]) == Ok(Read(v.mapName, os[3]))
      && StringAt(s, os[3]) == Ok(Read(v.folder, os[4]))
      && StringAt(s, os[4]) == Ok(Read(v.game, os[5]))
      && U16At(s, os[5]) == Ok(Read(v.id, os[6]))
      && ByteAt(s, os[6]) == Ok(Read(v.players, os[7]))
      && ByteAt(s, os[7]) == Ok(Read(v.maxPlayers, os[8]))
      && ByteAt(s, os[8]) == Ok(Read(v.bots, os[9]))
      && CharAt(s, os[9]) == Ok(Read(v.serverType, os[10]))
      && CharAt(s, os[10]) == Ok(Read(v.environment, os[11]))
      && ByteAt(s, os[11]) == Ok(Read(v.visibility, os[12]))
      && ByteAt(s, os[12]) == Ok(Read(v.vac, os[13]))
      && StringAt(s, os[13]) == Ok(Read(v.version, os[14]))
      && ByteAt(s, os[14]) == Ok(Read(v.edf, os[15]))
  {
    BaseSteps(s, off, header);
    var protocol := ByteAt(s, off);
    var name := StringAt(s, protocol.value.next);
    var mapName := StringAt(s, name.value.next);
    var folder := StringAt(s, mapName.value.next);
    var game := StringAt(s, folder.value.next);
    var id := U16At(s, game.value.next);
    var players := ByteAt(s, id.value.next);
    var maxPlayers := ByteAt(s, players.value.next);
    var bots := ByteAt(s, maxPlayers.value.next);
    var serverType := CharAt(s, bots.value.next);
    var environment := CharAt(s, serverType.value.next);
    var visibility := ByteAt(s, environment.value.next);
    var vac := ByteAt(s, visibility.value.next);
    var version := StringAt(s, vac.value.next);
    var edf := ByteAt(s, version.value.next);
    os := [off, protocol.value.next, name.value.next, mapName.value.next, folder.value.next,
           game.value.next, id.value.next, players.value.next, maxPlayers.value.next, bots.value.next,
           serverType.value.next, environment.value.next, visibility.value.next, vac.value.next,
           version.value.next, edf.value.next];
    assert && os[0] == off && os[1] == protocol.value.next && os[2] == name.value.next
           && os[3] == mapName.value.next && os[4] == folder.value.next && os[5] == game.value.next
           && os[6] == id.value.next && os[7] == players.value.next && os[8] == maxPlayers.value.next
           && os[9] == bots.value.next && os[10] == serverType.value.next && os[11] == environment.value.next
           && os[12] == visibility.value.next && os[13] == vac.value.next && os[14] == version.value.next
           && os[15] == edf.value.next;
    info := Info(header, protocol.value.value, name.value.value, mapName.value.value,
                     folder.value.value, game.value.value, id.value.value, players.value.value,
                     maxPlayers.value.value, bots.value.value, serverType.value.value,
                     environment.value.value, visibility.value.value, vac.value.value,
                     version.value.value, edf.value.value, NoExtra);
    assert BaseAt(s, off, header) == Ok(Read(info, edf.value.next));
  }

  /** A successful `BaseAt` is a chain of reads of the base fields of what it returns. */
  lemma BaseToReads(s: seq<Byte>, off: nat, header: Byte) returns (os: seq<nat>)
    requires BaseAt(s, off, header).Ok?
    ensures var rd := BaseAt(s, off, header).value;
      && rd.value.header == header && rd.value.extraData == NoExtra
      && ReadsAll(s, BaseFields(rd.value), os) && os[0] == off && os[|BaseFields(rd.value)|] == rd.next
  {
    var info;
    info, os := BaseOrder(s, off, header);
    var fs := BaseFields(info);
    forall k | 0 <= k < 15
      ensures Reads(s, os[k], fs[k], os[k + 1])
    {
      assert k == 0 || k == 1 || k == 2 || k == 3 || k == 4 || k == 5 || k == 6 || k == 7
        || k == 8 || k == 9 || k == 10 || k == 11 || k == 12 || k == 13 || k == 14;
    }
  }

  /** Reads of the optional fields are what `ExtraAt` chains together. */
  lemma ExtraFromReads(s: seq<Byte>, x: InfoExtra, edf: Byte, os: seq<nat>, off: nat, end: nat)
    requires ReadsAll(s, ExtraFields(x, edf), os) && os[0] == off && os[|ExtraFields(x, edf)|] == end
    ensures ExtraAt(s, off, edf) == Ok(Read(x, end))
  {
    var fs := ExtraFields(x, edf);
    assert Reads(s, os[0], fs[0], os[1]);
    assert Reads(s, os[1], fs[1], os[2]);
    assert Reads(s, os[2], fs[2], os[3]);
    assert Reads(s, os[3], fs[3], os[4]);
    assert Reads(s, os[4], fs[4], os[5]);
    assert Reads(s, os[5], fs[5], os[6]);
  }

  /** A successful `ExtraAt` is a chain of reads of the optional fields EDF selects. */
  lemma ExtraToReads(s: seq<Byte>, off: nat, edf: Byte) returns (os: seq<nat>)
    requires ExtraAt(s, off, edf).Ok?
    ensures var rd := ExtraAt(s, off, edf).value;
      ReadsAll(s, ExtraFields(rd.value, edf), os) && os[0] == off && os[|ExtraFields(rd.value, edf)|] == rd.next
  {
    var port := OptU16At(s, off, Has(edf, EdfPort)).value;
    var steamID := OptU64At(s, port.next, Has(edf, EdfSteamID)).value;
    var tvPort := OptU16At(s, steamID.next, Has(edf, EdfSourceTV)).value;
    var tvName := OptStringAt(s, tvPort.next, Has(edf, EdfSourceTV)).value;
    var keywords := OptStringAt(s, tvName.next, Has(edf, EdfKeywords)).value;
    var gameID := OptU64At(s, keywords.next, Has(edf, EdfGameID)).value;
    os := [off, port.next, steamID.next, tvPort.next, tvName.next, keywords.next, gameID.next];
    var fs := ExtraFields(ExtraAt(s, off, edf).value.value, edf);
    forall k | 0 <= k < 6
      ensures Reads(s, os[k], fs[k], os[k + 1])
    {
      assert k == 0 || k == 1 || k == 2 || k == 3 || k == 4 || k == 5;
    }
  }

  // ---------------------------------------------------------------------------
  // Layouts of the two parts of the record

  /** Base fields laid out at `off` are decoded by `BaseAt`, which stops at the end of the layout. */
  lemma BaseFromWindow(s: seq<Byte>, off: nat, info: Info, end: nat)
    requires Carried(BaseFields(info)) && Window(s, off, EncodeBase(info)) && end == off + |EncodeBase(info)|
    ensures BaseAt(s, off, info.header) == Ok(Read(info.(extraData := NoExtra), end))
  {
    var os := LayoutDecodes(s, off, BaseFields(info));
    BaseFromReads(s, info, os, off, end);
  }

  /** What `BaseAt` decodes is what it consumed, laid out. */
  lemma BaseToWindow(s: seq<Byte>, off: nat, header: Byte)
    requires BaseAt(s, off, header).Ok?
    ensures var rd := BaseAt(s, off, header).value;
      && rd.value.header == header && rd.value.extraData == NoExtra
      && Carried(BaseFields(rd.value))
      && rd.next == off + |EncodeBase(rd.value)|
      && Window(s, off, EncodeBase(rd.value))
  {
    var os := BaseToReads(s, off, header);
    var fs := BaseFields(BaseAt(s, off, header).value.value);
    assert Reads(s, os[0], fs[0], os[1]);
    ReadsLayout(s, fs, os);
  }

  /** Optional fields laid out at `off` are decoded by `ExtraAt`, which stops at the end of the layout. */
  lemma ExtraFromWindow(s: seq<Byte>, off: nat, x: InfoExtra, edf: Byte, end: nat)
    requires Carried(ExtraFields(x, edf)) && Window(s, off, EncodeExtra(x, edf)) && end == off + |EncodeExtra(x, edf)|
    ensures ExtraAt(s, off, edf) == Ok(Read(x, end))
  {
    var os := LayoutDecodes(s, off, ExtraFields(x, edf));
    ExtraFromReads(s, x, edf, os, off, end);
  }

  /** What `ExtraAt` decodes is what it consumed, laid out; a field whose bit is clear is zero. */
  lemma ExtraToWindow(s: seq<Byte>, off: nat, edf: Byte)
    requires off <= |s| && ExtraAt(s, off, edf).Ok?
    ensures var rd := ExtraAt(s, off, edf).value;
      && Carried(ExtraFields(rd.value, edf))
      && AbsentZero(rd.value, edf)
      && rd.next == off + |EncodeExtra(rd.value, edf)|
      && Window(s, off, EncodeExtra(rd.value, edf))
  {
    var os := ExtraToReads(s, off, edf);
    var fs := ExtraFields(ExtraAt(s, off, edf).value.value, edf);
    ReadsLayout(s, fs, os);
    assert FieldOk(fs[0]) && FieldOk(fs[1]) && FieldOk(fs[2]) && FieldOk(fs[3]) && FieldOk(fs[4]) && FieldOk(fs[5]);
  }

  // ---------------------------------------------------------------------------
  // The whole reply

  /** The marker is the little-endian layout of `^uint32(0)`. */
  lemma MarkerLayout()
    ensures LeBytes(0xFFFF_FFFF, 4) == Marker
  {
    MarkerValue();
    LittleEndianEncodes(Marker);
  }

  /** The base fields do not include the optional ones. */
  lemma BaseFieldsIgnoreExtra(info: Info, x: InfoExtra)
    ensures BaseFields(info.(extraData := x)) == BaseFields(info)
  {
  }

  /** The four parts of an encoding, each at its place. */
  lemma EncodeWindows(s: seq<Byte>, info: Info)
    requires Window(s, 0, Encode(info))
    ensures Window(s, 0, Marker) && Window(s, 4, [info.header])
    ensures Window(s, 5, EncodeBase(info))
    ensures Window(s, 5 + |EncodeBase(info)|, EncodeExtra(info.extraData, info.edf))
  {
    var head, eb, ee := Marker + [info.header], EncodeBase(info), EncodeExtra(info.extraData, info.edf);
    WindowSplit(s, 0, head + eb, ee);
    WindowSplit(s, 0, head, eb);
    WindowSplit(s, 0, Marker, [info.header]);
  }

  /** The four parts, each at its place, make up the encoding. */
  lemma WindowsEncode(s: seq<Byte>, info: Info)
    requires Window(s, 0, Marker) && Window(s, 4, [info.header])
    requires Window(s, 5, EncodeBase(info))
    requires Window(s, 5 + |EncodeBase(info)|, EncodeExtra(info.extraData, info.edf))
    ensures Window(s, 0, Encode(info)) && |Encode(info)| == 5 + |EncodeBase(info)| + |EncodeExtra(info.extraData, info.edf)|
  {
    var head, eb, ee := Marker + [info.header], EncodeBase(info), EncodeExtra(info.extraData, info.edf);
    WindowJoin(s, 0, Marker, [info.header]);
    WindowJoin(s, 0, head, eb);
    WindowJoin(s, 0, head + eb, ee);
  }

  /** The marker laid out at the start is what the marker read sees. */
  lemma MarkerFromWindow(s: seq<Byte>)
    requires Window(s, 0, Marker)
    ensures U32At(s, 0) == Ok(Read(0xFFFF_FFFF, 4))
  {
    MarkerLayout();
    UIntFromWindow(s, 0, 0xFFFF_FFFF, 4);
  }

  /** The header and the base fields of an encoding are decoded by the steps of `Response` that read them. */
  lemma EncodingHead(s: seq<Byte>, info: Info)
    requires WellFormed(info) && Window(s, 0, Encode(info))
    ensures U32At(s, 0) == Ok(Read(0xFFFF_FFFF, 4)) && ByteAt(s, 4) == Ok(Read(info.header, 5))
    ensures BaseAt(s, 5, info.header) == Ok(Read(info.(extraData := NoExtra), 5 + |EncodeBase(info)|))
  {
    EncodeWindows(s, info);
    MarkerFromWindow(s);
    ByteWindow(s, 4, info.header);
    BaseFromWindow(s, 5, info, 5 + |EncodeBase(info)|);
  }

  /** The optional fields of an encoding are decoded by `ExtraAt`, which stops at the end of the encoding. */
  lemma EncodingTail(s: seq<Byte>, info: Info)
    requires WellFormed(info) && Window(s, 0, Encode(info))
    ensures ExtraAt(s, 5 + |EncodeBase(info)|, info.edf) == Ok(Read(info.extraData, |Encode(info)|))
  {
    EncodeWindows(s, info);
    WindowsEncode(s, info);
    ExtraFromWindow(s, 5 + |EncodeBase(info)|, info.extraData, info.edf, |Encode(info)|);
  }

  /** `Response` is the marker check, the tag check, `BaseAt` and then `ExtraAt`. */
  lemma ResponseOfParts(s: seq<Byte>, info: Info, mid: nat, end: nat)
    requires info.header == InfoTag
    requires U32At(s, 0) == Ok(Read(0xFFFF_FFFF, 4)) && ByteAt(s, 4) == Ok(Read(info.header, 5))
    requires BaseAt(s, 5, info.header) == Ok(Read(info.(extraData := NoExtra), mid))
    requires ExtraAt(s, mid, info.edf) == Ok(Read(info.extraData, end))
    ensures Response(s) == Ok(Read(info, end))
  {
  }

  /** A successful `Response` passed both checks and both chains. */
  lemma PartsOfResponse(s: seq<Byte>)
    requires Response(s).Ok?
    ensures U32At(s, 0) == Ok(Read(0xFFFF_FFFF, 4)) && ByteAt(s, 4) == Ok(Read(InfoTag, 5))
    ensures var base := BaseAt(s, 5, InfoTag);
      && base.Ok?
      && var extra := ExtraAt(s, base.value.next, base.value.value.edf);
      && extra.Ok?
      && Response(s) == Ok(Read(base.value.value.(extraData := extra.value.value), extra.value.next))
  {
  }

  /**
   * Every well-formed record is decoded from a datagram that begins with its
   * encoding, whatever follows it, and decoding stops exactly at the end of
   * the encoding.
   */
  lemma RoundTrip(info: Info, s: seq<Byte>)
    requires WellFormed(info) && |Encode(info)| <= |s| && s[..|Encode(info)|] == Encode(info)
    ensures Response(s) == Ok(Read(info, |Encode(info)|))
  {
    assert Window(s, 0, Encode(info)) by {
      assert s[0..|Encode(info)|] == s[..|Encode(info)|];
    }
    EncodingHead(s, info);
    EncodingTail(s, info);
    ResponseOfParts(s, info, 5 + |EncodeBase(info)|, |Encode(info)|);
  }

  /** The marker and tag checks passed only on a marker and tag laid out at the start. */
  lemma HeaderWindows(s: seq<Byte>)
    requires U32At(s, 0) == Ok(Read(0xFFFF_FFFF, 4)) && ByteAt(s, 4) == Ok(Read(InfoTag, 5))
    ensures Window(s, 0, Marker) && Window(s, 4, [InfoTag])
  {
    UIntAtLayout(s, 0, 4);
    MarkerLayout();
    ByteWindow(s, 4, InfoTag);
  }

  /** The record the steps of `Response` decode is well-formed, and its encoding is what they consumed. */
  lemma DecodedEncoding(s: seq<Byte>, base: Info, mid: nat, x: InfoExtra, end: nat)
    requires U32At(s, 0) == Ok(Read(0xFFFF_FFFF, 4)) && ByteAt(s, 4) == Ok(Read(InfoTag, 5))
    requires BaseAt(s, 5, InfoTag) == Ok(Read(base, mid)) && ExtraAt(s, mid, base.edf) == Ok(Read(x, end))
    ensures var v := base.(extraData := x);
      WellFormed(v) && end == |Encode(v)| <= |s| && Window(s, 0, Encode(v))
  {
    HeaderWindows(s);
    BaseToWindow(s, 5, InfoTag);
    ExtraToWindow(s, mid, base.edf);
    var v := base.(extraData := x);
    BaseFieldsIgnoreExtra(base, x);
    WindowsEncode(s, v);
  }

  /**
   * A successful decode returns a well-formed record and consumed exactly its
   * encoding.
   */
  lemma ReEncode(s: seq<Byte>)
    requires Response(s).Ok?
    ensures var rd := Response(s).value;
      && WellFormed(rd.value)
      && rd.next == |Encode(rd.value)| <= |s|
      && s[..rd.next] == Encode(rd.value)
  {
    PartsOfResponse(s);
    var base := BaseAt(s, 5, InfoTag).value;
    var extra := ExtraAt(s, base.next, base.value.edf).value;
    DecodedEncoding(s, base.value, base.next, extra.value, extra.next);
    assert s[..extra.next] == s[0..extra.next];
  }

  /** Bytes after a reply do not change what it decodes to. */
  lemma TrailingIgnored(s: seq<Byte>, rest: seq<Byte>)
    requires Response(s).Ok?
    ensures Response(s + rest) == Response(s)
  {
    ReEncode(s);
    var rd := Response(s).value;
    assert (s + rest)[..rd.next] == s[..rd.next];
    RoundTrip(rd.value, s + rest);
  }

  /** A prefix that decodes decides what the whole datagram decodes to. */
  lemma PrefixDecodes(s: seq<Byte>, j: nat)
    requires j <= |s| && Response(s[..j]).Ok?
    ensures Response(s) == Response(s[..j])
  {
    ReEncode(s[..j]);
    var rd := Response(s[..j]).value;
    assert s[..j][..rd.next] == s[..rd.next];
    RoundTrip(rd.value, s);
  }

  /** A field whose EDF bit is clear keeps its zero value in every decoded record. */
  lemma AbsentStaysZero(s: seq<Byte>)
    requires Response(s).Ok?
    ensures AbsentZero(Response(s).value.value.extraData, Response(s).value.value.edf)
  {
    ReEncode(s);
    var v := Response(s).value.value;
    var fs := ExtraFields(v.extraData, v.edf);
    assert FieldOk(fs[0]) && FieldOk(fs[1]) && FieldOk(fs[2]) && FieldOk(fs[3]) && FieldOk(fs[4]) && FieldOk(fs[5]);
  }

  /**
   * EDF 0x80 followed by the little-endian port 27016, which is the two bytes
   * 0x88 0x69, decodes to a record whose only optional field is that port.
   */
  lemma PortOnly()
    ensures LeBytes(27016, 2) == [0x88, 0x69]
    ensures ExtraAt([0x88, 0x69], 0, EdfPort) == Ok(Read(NoExtra.(port := 27016), 2))
  {
  }

  /** `edf` with the bits 0x02, 0x04 and 0x08 cleared. */
  function ClearUnused(edf: Byte): (c: Byte)
    ensures c as int / 16 == edf as int / 16 && c as int % 16 < 2 && c as int % 2 == edf as int % 2
  {
    (16 * (edf as int / 16) + edf as int % 2) as Byte
  }

  /** The EDF bits that select fields are unchanged when the others are cleared. */
  lemma ClearUnusedKeepsFlags(edf: Byte)
    ensures var c := ClearUnused(edf);
      && Has(c, EdfPort) == Has(edf, EdfPort)
      && Has(c, EdfSteamID) == Has(edf, EdfSteamID)
      && Has(c, EdfSourceTV) == Has(edf, EdfSourceTV)
      && Has(c, EdfKeywords) == Has(edf, EdfKeywords)
      && Has(c, EdfGameID) == Has(edf, EdfGameID)
  {
    var c := ClearUnused(edf) as int;
    var e := edf as int;
    assert c == 16 * (c / 16) + c % 16 && e == 16 * (e / 16) + e % 16;
  }

  /** The EDF bits 0x02, 0x04 and 0x08 select no field: clearing them changes nothing that is read. */
  lemma UnusedBitsIgnored(s: seq<Byte>, off: nat, edf: Byte)
    ensures ExtraAt(s, off, edf) == ExtraAt(s, off, ClearUnused(edf))
  {
    ClearUnusedKeepsFlags(edf);
  }

  // ---------------------------------------------------------------------------
  // Failures

  /** Every failure of `BaseAt` is a read running past the end. */
  lemma BaseAtFailsEOF(s: seq<Byte>, off: nat, header: Byte)
    ensures BaseAt(s, off, header).Err? ==> BaseAt(s, off, header).error == EOF
  {
  }

  /** Every failure of `ExtraAt` is a read running past the end. */
  lemma ExtraAtFailsEOF(s: seq<Byte>, off: nat, edf: Byte)
    ensures ExtraAt(s, off, edf).Err? ==> ExtraAt(s, off, edf).error == EOF
  {
  }

  /** The marker check passes exactly on the four all-ones bytes. */
  lemma MarkerCheck(s: seq<Byte>)
    requires |s| >= 4
    ensures U32At(s, 0).Ok? && (U32At(s, 0).value.value == 0xFFFF_FFFF <==> s[..4] == Marker)
  {
    MarkerValue();
    assert s[0..4] == s[..4];
    if LittleEndian(s[..4]) == 0xFFFF_FFFF {
      LittleEndianInjective(s[..4], Marker);
    }
  }

  /** A datagram that does not open with the marker and the tag 'I'. */
  predicate BadHeader(s: seq<Byte>)
  {
    || (|s| >= 4 && s[..4] != Marker)
    || (|s| >= 5 && s[..4] == Marker && s[4] != InfoTag)
  }

  /**
   * A decode fails with `UnexpectedResponse` exactly when the marker or the
   * tag is wrong; every other failure is `EOF`; a successful decode saw the
   * marker and the tag.
   */
  lemma HeaderVerdict(s: seq<Byte>)
    ensures Response(s) == Err(UnexpectedResponse) <==> BadHeader(s)
    ensures Response(s).Err? && !BadHeader(s) ==> Response(s).error == EOF
    ensures Response(s).Ok? ==> |s| >= 5 && s[..4] == Marker && s[4] == InfoTag
  {
    if |s| >= 4 {
      MarkerCheck(s);
      if |s| >= 5 && s[..4] == Marker && s[4] == InfoTag {
        BaseAtFailsEOF(s, 5, InfoTag);
        if BaseAt(s, 5, InfoTag).Ok? {
          var base := BaseAt(s, 5, InfoTag).value;
          ExtraAtFailsEOF(s, base.next, base.value.edf);
        }
      }
    }
  }

  /** A reply cut off before its end fails with `EOF`. */
  lemma TruncatedFails(s: seq<Byte>, j: nat)
    requires j <= |s| && Response(s).Ok? && j < Response(s).value.next
    ensures Response(s[..j]) == Err(EOF)
  {
    ReEncode(s);
    HeaderVerdict(s);
    if Response(s[..j]).Ok? {
      ReEncode(s[..j]);
      PrefixDecodes(s, j);
      assert false;
    }
    HeaderVerdict(s[..j]);
    if j >= 4 {
      assert s[..j][..4] == s[..4];
    }
  }
}
