/** Reading archives: `Entries`, over a source that splits its reads as it likes. */
module TarReader {
  import opened Wrappers
  import opened Bytes
  import opened Ustar
  import opened TarHeader
  import opened TarWriter

  predicate AllZero(b: seq<Byte>) {
    forall i :: 0 <= i < |b| ==> b[i] == 0
  }

  /** The size rounded up to whole blocks. */
  function Blocks(size: nat): (n: nat)
    ensures n >= size
  {
    (size + BLOCK - 1) / BLOCK * BLOCK
  }

  // ----- what an archive means -----

  /** One header and as much of its data as there is, with what follows its last block, if that is there. */
  datatype Raw = Raw(header: Header, size: nat, data: seq<Byte>, rest: Option<seq<Byte>>)

  /** `poll_next_raw` at the start of `s`: nothing at the end of the archive, or a member, or an error. */
  function RawNext(s: seq<Byte>): Option<Result<Raw>> {
    if s == [] then None
    else if |s| < BLOCK then Some(Err(Other))
    else
      var h: Header := s[..BLOCK];
      if AllZero(h) then None
      else if !CksumOk(h) then Some(Err(Other))
      else match EntrySize(h)
           case Err(_) => Some(Err(Other))
           case Ok(size) =>
             var data := if |s| - BLOCK < size then s[BLOCK..] else s[BLOCK..BLOCK + size];
             Some(Ok(Raw(h, size, data, if |s| - BLOCK < Blocks(size) then None else Some(s[BLOCK + Blocks(size)..]))))
  }

  /** The cases of `RawNext`. */
  lemma RawParts(s: seq<Byte>)
    ensures s == [] ==> RawNext(s) == None
    ensures 0 < |s| < BLOCK ==> RawNext(s) == Some(Err(Other))
    ensures |s| >= BLOCK ==>
              var h: Header := s[..BLOCK];
              && (AllZero(h) ==> RawNext(s) == None)
              && (!AllZero(h) && (!CksumOk(h) || EntrySize(h).Err?) ==> RawNext(s) == Some(Err(Other)))
              && (!AllZero(h) && CksumOk(h) && EntrySize(h).Ok? ==>
                    var size := EntrySize(h).value;
                    && Blocks(size) >= size
                    && RawNext(s) == Some(Ok(Raw(
                         h, size, s[BLOCK..][..if |s| - BLOCK < size then |s| - BLOCK else size],
                         if |s| - BLOCK < Blocks(size) then None else Some(s[BLOCK + Blocks(size)..])))))
  {
    hide CksumOk, EntrySize, AllZero;
    if |s| >= BLOCK && EntrySize(s[..BLOCK]).Ok? {
      var size := EntrySize(s[..BLOCK]).value;
      if |s| - BLOCK < size {
        assert s[BLOCK..][..|s| - BLOCK] == s[BLOCK..];
      } else {
        assert s[BLOCK..][..size] == s[BLOCK..BLOCK + size];
      }
    }
  }

  /** A member as `Entries` returns it. */
  datatype Item = Item(header: Header, longPath: Option<seq<Byte>>, longLink: Option<seq<Byte>>, size: nat,
      data: seq<Byte>)
  {
    /** `path_bytes`. */
    function Path(): seq<Byte> {
      match longPath
      case Some(p) => (if p != [] && p[|p| - 1] == 0 then p[..|p| - 1] else p)
      case None => HeaderPath(header)
    }
  }

  predicate Recognized(h: Header) {
    IsGnu(h) || IsUstar(h)
  }

  /** `Entries::poll_next` where the archive continues with `s`, if it goes that far, after the long names seen so far:
      the next member, and where the archive continues after it. Members with pax records and sparse members are not
      read. */
  function ItemNext(s: Option<seq<Byte>>, longPath: Option<seq<Byte>>,
      longLink: Option<seq<Byte>>): (r: Option<Result<(Item, Option<seq<Byte>>)>>)
    decreases if s.Some? then |s.value| else 0
  {
    if s.None? then Some(Err(Other))
    else match RawNext(s.value)
         case None => None
         case Some(Err(e)) => Some(Err(e))
         case Some(Ok(raw)) =>
           var t := EntryType(raw.header);
           if Recognized(raw.header) && t == LONG_NAME then
             if longPath.Some? then Some(Err(Other)) else ItemNext(raw.rest, Some(raw.data), longLink)
           else if Recognized(raw.header) && t == LONG_LINK then
             if longLink.Some? then Some(Err(Other)) else ItemNext(raw.rest, longPath, Some(raw.data))
           else if (Recognized(raw.header) && t == PAX) || t == SPARSE then Some(Err(Other))
           else Some(Ok((Item(raw.header, longPath, longLink, raw.size, raw.data), raw.rest)))
  }

  // ----- the reader -----

  /** The state of a reader over the bytes `src`: how far the source has been read, and where the next header is. */
  class Entries {
    const src: seq<Byte>
    var pos: nat
    var next: nat
    var gnuLongname: Option<seq<Byte>>
    var gnuLonglink: Option<seq<Byte>>
    var remaining: nat

    constructor (bytes: seq<Byte>)
      ensures src == bytes && pos == 0 && next == 0 && remaining == 0 && gnuLongname == None && gnuLonglink == None
    {
      src, pos, next, remaining, gnuLongname, gnuLonglink := bytes, 0, 0, 0, None, None;
    }

    /** The source has not been read past the current member, whose unread data is what is left of it. */
    ghost predicate Valid()
      reads this
    {
      pos <= |src| && pos + remaining <= next
    }

    /** Where the archive continues. */
    function Ahead(): Option<seq<Byte>>
      reads this
    {
      if next <= |src| then Some(src[next..]) else None
    }

    /** `poll_read` of the source: at most `max` bytes, at least one unless there are none. */
    method PollRead(max: nat) returns (b: seq<Byte>)
      requires pos <= |src|
      modifies this`pos
      ensures pos == old(pos) + |b| <= |src| && |b| <= max && b == src[old(pos)..pos]
      ensures b == [] <==> max == 0 || old(pos) == |src|
    {
      var most := if max < |src| - pos then max else |src| - pos;
      var n: nat :| n <= most && (n == 0 ==> most == 0);
      b := src[pos..pos + n];
      pos := pos + n;
    }

    /** `poll_skip`. */
    method Skip(amount: nat) returns (r: Result<()>)
      requires pos <= |src|
      modifies this`pos
      ensures pos <= |src|
      ensures r.Ok? <==> old(pos) + amount <= |src|
      ensures r.Ok? ==> pos == old(pos) + amount
    {
      var amt := amount;
      while amt > 0
        invariant amt >= 0 && pos <= |src| && pos + amt == old(pos) + amount
        decreases amt
      {
        var b := PollRead(if amt < 32768 then amt else 32768);
        if b == [] {
          return Err(Other);
        }
        amt := amt - |b|;
      }
      r := Ok(());
    }

    /** `poll_try_read_all`: all `n` bytes, or none at the end of the source; anything between is an error. */
    method TryReadAll(n: nat) returns (r: Result<seq<Byte>>)
      requires pos <= |src|
      modifies this`pos
      ensures pos <= |src|
      ensures |src| - old(pos) >= n ==> r == Ok(src[old(pos)..old(pos) + n]) && pos == old(pos) + n
      ensures |src| - old(pos) < n ==> r == if old(pos) == |src| then Ok([]) else Err(Other)
    {
      var buf := [];
      while |buf| < n
        invariant pos <= |src| && pos == old(pos) + |buf| && |buf| <= n && buf == src[old(pos)..pos]
        decreases n - |buf|
      {
        var b := PollRead(n - |buf|);
        if b == [] {
          if buf == [] {
            return Ok([]);
          }
          return Err(Other);
        }
        buf := buf + b;
      }
      r := Ok(buf);
    }

    /** `poll_next_raw`: skip what was not read of the current member, then read a header. */
    method NextRaw() returns (r: Option<Result<(Header, nat)>>)
      requires Valid()
      modifies this`pos, this`next, this`remaining
      ensures pos <= |src|
      ensures old(Ahead()).None? ==> r == Some(Err(Other))
      ensures old(Ahead()).Some? ==>
                match RawNext(old(Ahead()).value)
                case None => r == None
                case Some(Err(e)) => r == Some(Err(e))
                case Some(Ok(raw)) =>
                  && r == Some(Ok((raw.header, raw.size)))
                  && Valid() && remaining == raw.size && Ahead() == raw.rest
                  && raw.data == src[pos..][..if |src| - pos < raw.size then |src| - pos else raw.size]
    {
      hide CksumOk, EntrySize, AllZero, Blocks, RawNext;
      ghost var before := Ahead();
      if before.Some? { RawParts(before.value); }
      if next > pos {
        var skipped := Skip(next - pos);
        if skipped.Err? {
          return Some(Err(Other));
        }
      }
      ghost var ahead := src[next..];
      var read := TryReadAll(BLOCK);
      if read.Err? {
        return Some(Err(Other));
      }
      if read.value == [] {
        return None;
      }
      var header: Header := read.value;
      assert ahead[..BLOCK] == src[next..next + BLOCK];
      if AllZero(header) {
        return None;
      }
      next := next + BLOCK;
      if !CksumOk(header) {
        return Some(Err(Other));
      }
      var size := EntrySize(header);
      if size.Err? {
        return Some(Err(Other));
      }
      remaining := size.value;
      next := next + Blocks(size.value);
      assert src[pos..] == ahead[BLOCK..];
      assert next <= |src| ==> src[next..] == ahead[BLOCK + Blocks(size.value)..];
      r := Some(Ok((header, size.value)));
    }

    /** `poll_read` of the current member: at most `max` bytes of its data, at least one unless there are none. A read
        that gives nothing ends the member, even if it asked for nothing. */
    method Read(max: nat) returns (b: seq<Byte>)
      requires Valid()
      modifies this`pos, this`remaining
      ensures Valid() && pos == old(pos) + |b| && remaining == if b == [] then 0 else old(remaining) - |b|
      ensures b == src[old(pos)..pos] && |b| <= max
      ensures b == [] <==> max == 0 || old(remaining) == 0 || old(pos) == |src|
    {
      b := PollRead(if max < remaining then max else remaining);
      remaining := if b == [] then 0 else remaining - |b|;
    }

    /** `poll_read_all`: whatever the source has of the member's data. */
    method ReadAll() returns (b: seq<Byte>)
      requires Valid()
      modifies this`pos, this`remaining
      ensures Valid()
      ensures b == src[old(pos)..][..if |src| - old(pos) < old(remaining) then |src| - old(pos) else old(remaining)]
    {
      b := [];
      while true
        invariant Valid() && pos == old(pos) + |b| && remaining == old(remaining) - |b|
        invariant b == src[old(pos)..pos]
        decreases remaining
      {
        var more := Read(8192);
        if more == [] {
          break;
        }
        b := b + more;
      }
      assert b == src[old(pos)..][..|b|];
    }

    /** `Entries::poll_next`, after which the member's data may be read. */
    method Next() returns (r: Option<Result<Item>>)
      requires Valid()
      modifies this
      ensures pos <= |src|
      ensures match ItemNext(old(Ahead()), old(gnuLongname), old(gnuLonglink))
              case None => r == None
              case Some(Err(e)) => r == Some(Err(e))
              case Some(Ok((item, rest))) =>
                && r.Some? && r.value.Ok? && r.value.value == item.(data := r.value.value.data)
                && Valid() && Ahead() == rest && gnuLongname == None && gnuLonglink == None
                && remaining == item.size
                && item.data == src[pos..][..if |src| - pos < item.size then |src| - pos else item.size]
    {
      hide RawNext, Recognized;
      ghost var all := ItemNext(Ahead(), gnuLongname, gnuLonglink);
      while true
        invariant Valid() && ItemNext(Ahead(), gnuLongname, gnuLonglink) == all
        decreases if Ahead().Some? then |Ahead().value| else 0, Ahead().Some?
      {
        ghost var ahead := Ahead();
        if ahead.Some? { RawGoesOn(ahead.value); }
        var raw := NextRaw();
        if raw.None? {
          return None;
        }
        if raw.value.Err? {
          return Some(Err(Other));
        }
        var (header, size) := raw.value.value;
        var t := EntryType(header);
        if Recognized(header) && t == LONG_NAME {
          if gnuLongname.Some? {
            return Some(Err(Other));
          }
          var val := ReadAll();
          gnuLongname := Some(val);
          continue;
        }
        if Recognized(header) && t == LONG_LINK {
          if gnuLonglink.Some? {
            return Some(Err(Other));
          }
          var val := ReadAll();
          gnuLonglink := Some(val);
          continue;
        }
        if (Recognized(header) && t == PAX) || t == SPARSE {
          return Some(Err(Other));
        }
        var item := Item(header, gnuLongname, gnuLonglink, size, []);
        gnuLongname, gnuLonglink := None, None;
        return Some(Ok(item));
      }
    }
  }

  /** A member is longer than nothing, and errors are all alike. */
  lemma RawGoesOn(s: seq<Byte>)
    ensures match RawNext(s)
            case Some(Ok(raw)) => raw.rest.Some? ==> |raw.rest.value| < |s|
            case Some(Err(e)) => e == Other
            case None => true
  {
    hide CksumOk, EntrySize;
  }
}
