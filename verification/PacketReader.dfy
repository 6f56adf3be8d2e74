/** `Packet_reader`: a packet is put together from fragments of any size. */
module PacketReader {
  import opened Results
  import opened Decimal
  import opened Text
  import opened HttpHeader

  const END := "\r\n\r\n"
  const BARE_END := "\n\n"

  datatype Packet = Packet(header: Header, content: string)

  /** The constructor of a packet sets the length option. */
  function MakePacket(h: Header, content: string): Packet {
    Packet(SetContentLength(h, |content|), content)
  }

  /** The fields of a reader. */
  datatype Reader = Reader(
    headerCache: string,
    contentCache: string,
    header: Option<Header>,
    level: Level,
    constructed: bool,
    maxSize: Unsigned,
    totalSize: Unsigned)

  type Answer = Result<Option<Packet>, HttpError>

  function Cleared(r: Reader): Reader {
    Reader("", "", None, r.level, false, r.maxSize, 0)
  }

  function Fresh(level: Level, max: Unsigned): Reader {
    Reader("", "", None, level, false, max, 0)
  }

  /** Where the header ends and how long its terminator is: at the first CRLFCRLF, or, if there is none
      yet, at the first pair of bare line feeds. */
  function HeaderEnd(text: string): (r: Option<(nat, nat)>)
    ensures r.Some? ==> r.value.0 + r.value.1 <= |text| && r.value.1 >= 2
  {
    match Find(text, END)
    case Some(i) => Some((i, 4))
    case None =>
      match Find(text, BARE_END)
      case Some(i) => Some((i, 2))
      case None => None
  }

  /** `check_sz`: the counter is a 32-bit unsigned number. */
  function CheckSize(r: Reader, size: nat): (Reader, Option<HttpError>) {
    if r.maxSize == 0 then
      (r, None)
    else
      var early :=
        if r.header.None? then
          None
        else
          match ContentLength(r.header.value)
          case Err(e) => Some(e)
          case Ok(n) => if n + |r.headerCache| >= r.maxSize then Some(RequestTooLarge) else None;
      if early.Some? then
        (r, early)
      else
        var total := (r.totalSize + size) % UNSIGNED_MODULUS;
        (r.(totalSize := total), if total >= r.maxSize then Some(RequestTooLarge) else None)
  }

  /** Take in the bytes: to the header while it is not complete, to the content afterwards. */
  function Absorb(r: Reader, kind: Kind, s: string): (Reader, Option<HttpError>) {
    if r.header.Some? then
      (r.(contentCache := r.contentCache + s), None)
    else if s == "" then
      (r, Some(MalformedPacket))
    else
      var text := r.headerCache + s;
      match HeaderEnd(text)
      case None => (r.(headerCache := text), None)
      case Some((i, len)) =>
        var r' := r.(headerCache := text[..i], contentCache := r.contentCache + text[i + len..]);
        match Build(kind, r.level, text[..i])
        case Err(e) => (r', Some(e))
        case Ok(h) => (r'.(header := Some(h)), None)
  }

  /** Hand out the packet if it is complete. */
  function Deliver(r: Reader, hdrOnly: bool): (Reader, Answer) {
    if r.header.None? then
      (r, Ok(None))
    else if hdrOnly then
      (r.(constructed := true), Ok(Some(MakePacket(r.header.value, ""))))
    else
      match ContentLength(r.header.value)
      case Err(e) => (r, Err(e))
      case Ok(n) =>
        if |r.contentCache| >= n then
          var content := r.contentCache[..n];
          (r.(contentCache := content, constructed := true), Ok(Some(MakePacket(r.header.value, content))))
        else
          (r, Ok(None))
  }

  /** `read_packet`. */
  function Read(r: Reader, kind: Kind, s: string, hdrOnly: bool): (Reader, Answer) {
    var r0 := if r.constructed then Cleared(r) else r;
    var (r1, tooLarge) := CheckSize(r0, |s| % UNSIGNED_MODULUS);
    if tooLarge.Some? then
      (r1, Err(tooLarge.value))
    else
      var (r2, bad) := Absorb(r1, kind, s);
      if bad.Some? then (r2, Err(bad.value)) else Deliver(r2, hdrOnly)
  }

  // ----- The class -----

  class PacketReader {
    var headerCache: string
    var contentCache: string
    var header: Option<Header>
    var level: Level
    var constructed: bool
    var maxSize: Unsigned
    var totalSize: Unsigned

    ghost function State(): Reader
      reads this
    {
      Reader(headerCache, contentCache, header, level, constructed, maxSize, totalSize)
    }

    /** The C++ constructor leaves the verification level unset; here it is given. */
    constructor (lev: Level)
      ensures State() == Fresh(lev, 0)
    {
      headerCache, contentCache, header, level := "", "", None, lev;
      constructed, maxSize, totalSize := false, 0, 0;
    }

    method SetVerificationLevel(lev: Level)
      modifies this
      ensures State() == old(State()).(level := lev)
    {
      level := lev;
    }

    method SetMaxSize(m: Unsigned)
      modifies this
      ensures State() == old(State()).(maxSize := m)
    {
      maxSize := m;
    }

    method Clear()
      modifies this
      ensures State() == Cleared(old(State()))
    {
      header := None;
      contentCache := "";
      headerCache := "";
      constructed := false;
      totalSize := 0;
    }

    method CheckSz(sz: nat) returns (e: Option<HttpError>)
      modifies this`totalSize
      ensures (State(), e) == CheckSize(old(State()), sz)
    {
      if maxSize == 0 {
        return None;
      }
      if header.Some? {
        var n := ContentLength(header.value);
        if n.Err? {
          return Some(n.error);
        }
        if n.value + |headerCache| >= maxSize {
          return Some(RequestTooLarge);
        }
      }
      totalSize := (totalSize + sz) % UNSIGNED_MODULUS;
      return if totalSize >= maxSize then Some(RequestTooLarge) else None;
    }

    method ReadHeader(s: string) returns (found: bool)
      modifies this`headerCache, this`contentCache
      ensures found <==> HeaderEnd(old(headerCache) + s).Some?
      ensures !found ==> headerCache == old(headerCache) + s && contentCache == old(contentCache)
      ensures found ==>
                var text := old(headerCache) + s;
                var (i, len) := HeaderEnd(text).value;
                headerCache == text[..i] && contentCache == old(contentCache) + text[i + len..]
    {
      headerCache := headerCache + s;
      var len := 4;
      var i := Find(headerCache, END);
      if i.None? {
        len := 2;
        i := Find(headerCache, BARE_END);
      }
      if i.None? {
        return false;
      }
      var tmp := headerCache[..i.value];
      contentCache := contentCache + headerCache[i.value + len..];
      headerCache := tmp;
      return true;
    }

    method ReadPacket(kind: Kind, s: string, hdrOnly: bool) returns (answer: Answer)
      modifies this
      ensures (State(), answer) == Read(old(State()), kind, s, hdrOnly)
    {
      hide HeaderEnd, Build, ContentLength, MakePacket;
      if constructed {
        Clear();
      }
      var tooLarge := CheckSz(|s| % UNSIGNED_MODULUS);
      if tooLarge.Some? {
        return Err(tooLarge.value);
      }
      if header.None? {
        if s == "" {
          return Err(MalformedPacket);
        }
        var found := ReadHeader(s);
        if found {
          var h := Build(kind, level, headerCache);
          if h.Err? {
            return Err(h.error);
          }
          header := Some(h.value);
        }
      } else {
        contentCache := contentCache + s;
      }
      if header.Some? {
        if hdrOnly {
          constructed := true;
          return Ok(Some(MakePacket(header.value, "")));
        }
        var n := ContentLength(header.value);
        var ready := s == "" && n == Ok(0);
        if !ready {
          if n.Err? {
            return Err(n.error);
          }
          ready := |contentCache| >= n.value;
        }
        if ready {
          contentCache := contentCache[..n.value];
          constructed := true;
          return Ok(Some(MakePacket(header.value, contentCache)));
        }
      }
      return Ok(None);
    }
  }
}
