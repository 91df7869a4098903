/**
 FatFileHandle: the FILE pointer it owns, the mapping of open modes to
 fopen mode strings, and the cursor bookkeeping of GetSize and SetOffset.
 fopen, fclose and fseek are oracles or an abstract (length, cursor) stream.
 */
module FileHandle {
  import opened Common

  /** The open modes callers pass; Unlisted stands for any other value of the enumeration's underlying type. */
  datatype OpenMode = Read | Write | Update | Unlisted(raw: int)

  /** The seek anchors callers pass; Unlisted stands for any other value. */
  datatype Position = Begin | Current | End | UnlistedPosition(raw: int)

  /** The fopen mode string for a mode, or None (the null pointer) for an unlisted one. */
  function GetOpenMode(mode: OpenMode): (r: Option<string>)
    ensures r.Some? <==> !mode.Unlisted?
    ensures r.Some? ==> |r.value| == 2 && r.value[1] == 'b'
  {
    match mode
    case Read => Some("rb")
    case Write => Some("wb")
    case Update => Some("ab")
    case Unlisted(_) => None
  }

  /** The mode a fopen mode string came from, if any. */
  function ModeOf(s: string): Option<OpenMode>
  {
    if s == "rb" then Some(Read)
    else if s == "wb" then Some(Write)
    else if s == "ab" then Some(Update)
    else None
  }

  /**
   The mapping is one-to-one: every listed mode gets its own fopen string
   and the string gives the mode back, and the only strings ModeOf accepts
   are those GetOpenMode produces.
   */
  lemma GetOpenModeRoundTrip(mode: OpenMode, s: string)
    ensures GetOpenMode(mode).Some? ==> ModeOf(GetOpenMode(mode).value) == Some(mode)
    ensures ModeOf(s).Some? ==> GetOpenMode(ModeOf(s).value) == Some(s)
  {
  }

  /** An open FILE as far as the model needs it: its length and its cursor, in bytes. */
  datatype Stream = Stream(length: nat, cursor: nat)

  /** The handle's FILE pointer; None is the null pointer of a closed handle. */
  datatype Handle = Handle(file: Option<Stream>)

  /** A freshly constructed handle. */
  const Closed := Handle(None)

  /** One call of Open: its result, the handle afterwards, and whether fopen was reached. */
  datatype OpenCall = OpenCall(ok: bool, handle: Handle, fopenCalled: bool)

  /**
   Open(path, mode) over an fopen oracle that gives a stream or null. An
   unlisted mode fails at once, without calling fopen and without touching
   the handle. Otherwise the handle takes whatever fopen returns (a stream
   it held before is not closed first) and Open reports whether that is
   non-null.
   */
  function Open(h: Handle, path: Path, mode: OpenMode, fopen: (Path, string) -> Option<Stream>): (c: OpenCall)
    ensures mode.Unlisted? ==> !c.ok && !c.fopenCalled && c.handle == h
    ensures !mode.Unlisted? ==> c.fopenCalled && c.handle.file == fopen(path, GetOpenMode(mode).value)
    ensures c.ok <==> c.fopenCalled && c.handle.file.Some?
  {
    match GetOpenMode(mode)
    case None => OpenCall(false, h, false)
    case Some(fMode) =>
      var file := fopen(path, fMode);
      OpenCall(file.Some?, Handle(file), true)
  }

  /** One call of Close: its result and the handle afterwards. */
  datatype CloseCall = CloseCall(ok: bool, handle: Handle)

  /**
   Close() with `fcloseOk` standing for whether fclose returned 0. The
   handle is null afterwards whatever fclose reported; the result is
   fclose's verdict.
   */
  function Close(h: Handle, fcloseOk: bool): (c: CloseCall)
    ensures c.handle == Closed
    ensures c.ok <==> fcloseOk
  {
    CloseCall(fcloseOk, Handle(None))
  }

  /** What ftell reports. */
  function Tell(f: Stream): nat
  {
    f.cursor
  }

  /** The position a seek is measured from. */
  function Anchor(f: Stream, pos: Position): nat
    requires !pos.UnlistedPosition?
  {
    match pos
    case Begin => 0
    case Current => f.cursor
    case End => f.length
  }

  /** A seek that succeeds: the cursor moves to the anchor plus the offset, the length stays. */
  function SeekTo(f: Stream, offset: nat, pos: Position): Stream
    requires !pos.UnlistedPosition?
  {
    f.(cursor := Anchor(f, pos) + offset)
  }

  /**
   GetSize(): remember the cursor, seek to the end, read the cursor there as
   the size, and seek back. The size is the stream's length and the stream
   comes back exactly as it was: the caller's cursor is undisturbed.
   */
  function GetSize(f: Stream): (r: (nat, Stream))
    ensures r.0 == f.length
    ensures r.1 == f
  {
    var curPos := Tell(f);
    var atEnd := SeekTo(f, 0, End);
    var size := Tell(atEnd);
    var back := SeekTo(atEnd, curPos, Begin);
    (size, back)
  }

  /**
   SetOffset(offset, pos), with `seekOk` standing for fseek's verdict. An
   unlisted position fails without seeking. A seek that fails leaves the
   stream as it was; one that succeeds puts the cursor `offset` bytes past
   the start, the current cursor, or the end.
   */
  function SetOffset(f: Stream, offset: nat, pos: Position, seekOk: bool): (r: (bool, Stream))
    ensures r.0 <==> !pos.UnlistedPosition? && seekOk
    ensures !r.0 ==> r.1 == f
    ensures r.0 ==> r.1.length == f.length
    ensures r.0 && pos == Begin ==> r.1.cursor == offset
    ensures r.0 && pos == Current ==> r.1.cursor == f.cursor + offset
    ensures r.0 && pos == End ==> r.1.cursor == f.length + offset
  {
    match pos
    case UnlistedPosition(_) => (false, f)
    case _ => if seekOk then (true, SeekTo(f, offset, pos)) else (false, f)
  }

  /** What GetOffset reports. */
  function GetOffset(f: Stream): nat
  {
    Tell(f)
  }

  /**
   GetSize between a seek and GetOffset does not move the cursor: after
   SetOffset(off, Begin) succeeds, GetSize gives the length and GetOffset
   still gives `off`.
   */
  lemma GetSizeKeepsOffset(f: Stream, off: nat)
    ensures var (ok, f1) := SetOffset(f, off, Begin, true);
            var (size, f2) := GetSize(f1);
            ok && size == f.length && GetOffset(f2) == off
  {
  }

  /**
   The handle's life cycle: a closed handle opened with a listed mode and an
   fopen that succeeds is open on that stream; closing it leaves it closed
   whatever fclose reports, ready to be opened again.
   */
  lemma OpenCloseCycle(path: Path, mode: OpenMode, fopen: (Path, string) -> Option<Stream>, fcloseOk: bool)
    requires !mode.Unlisted? && fopen(path, GetOpenMode(mode).value).Some?
    ensures var o := Open(Closed, path, mode, fopen);
            && o.ok
            && o.handle.file == fopen(path, GetOpenMode(mode).value)
            && Close(o.handle, fcloseOk).handle == Closed
  {
  }
}
