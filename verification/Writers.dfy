/** The four writers behind one interface: what DecompressAllTags is a template over. */
module Writers {
  import opened Bytes
  import opened ArrayWriter
  import opened IOVecWriter
  import opened ScatteredWriter

  datatype Writer =
    | Flat(flat: SnappyArrayWriter)
    | Vector(iov: SnappyIOVecWriter)
    | Scattered(blocks: SnappyScatteredWriter)
    | Checker(checker: SnappyDecompressionValidator)
  {
    ghost function Handle(): object {
      match this
      case Flat(w) => w
      case Vector(w) => w
      case Scattered(w) => w
      case Checker(w) => w
    }

    /** The objects a writer owns. The scattered writer's set grows. */
    ghost function Repr(): set<object>
      reads Handle()
    {
      match this
      case Flat(w) => {w, w.dst}
      case Vector(w) => {w} + set b: object | b in w.iov
      case Scattered(w) => {w} + set b: object | b in w.blocks
      case Checker(w) => {w}
    }

    ghost predicate Valid()
      reads Handle(), Repr()
    {
      match this
      case Flat(w) => w.Valid()
      case Vector(w) => w.Valid()
      case Scattered(w) => w.Valid()
      case Checker(w) => w.Valid()
    }

    /** The output so far. */
    ghost function Out(): seq<byte>
      reads Handle(), Repr()
      requires Valid()
    {
      match this
      case Flat(w) => w.Out()
      case Vector(w) => w.out
      case Scattered(w) => w.out
      case Checker(w) => w.out
    }

    ghost function Expected(): nat
      reads Handle()
    {
      match this
      case Flat(w) => w.opLimit
      case Vector(w) => w.limit
      case Scattered(w) => w.expected
      case Checker(w) => w.expected
    }

    /** The caller's memory from position `len` on. */
    ghost function BeyondFrom(len: nat): seq<seq<byte>>
      reads Handle(), Repr()
    {
      match this
      case Flat(w) => if len <= w.dst.Length then [w.dst[len..]] else []
      case Vector(w) => w.BeyondFrom(len)
      case Scattered(_) => []
      case Checker(_) => []
    }

    /** The caller's memory past the announced length. */
    ghost function Beyond(): seq<seq<byte>>
      reads Handle(), Repr()
    {
      BeyondFrom(Expected())
    }

    predicate CheckLength()
      reads Handle()
    {
      match this
      case Flat(w) => w.CheckLength()
      case Vector(w) => w.CheckLength()
      case Scattered(w) => w.CheckLength()
      case Checker(w) => w.CheckLength()
    }

    /** A writer to which nothing has been written. */
    ghost predicate Initial()
      reads Handle(), Repr()
    {
      Valid() && Out() == [] && (this.Scattered? ==> this.blocks.blocks == [])
    }

    /** The caller's buffers can hold `len` bytes. */
    ghost predicate HasRoom(len: nat)
      reads Handle()
    {
      match this
      case Flat(w) => len <= w.dst.Length
      case Vector(w) => len <= Start(w.iov, |w.iov|)
      case Scattered(_) => true
      case Checker(_) => true
    }

    method SetExpectedLength(len: nat)
      requires Initial() && HasRoom(len) && len < TWO32
      modifies Handle()
      ensures Initial() && Expected() == len && Repr() == old(Repr())
      ensures Beyond() == old(BeyondFrom(len))
    {
      match this {
        case Flat(w) => w.SetExpectedLength(len);
        case Vector(w) => w.SetExpectedLength(len);
        case Scattered(w) => w.SetExpectedLength(len);
        case Checker(w) => w.SetExpectedLength(len);
      }
    }

    /** Only the scattered writer has anything to flush: what its sink receives. */
    method Flush() returns (sink: seq<byte>)
      ensures this.Scattered? && Valid() ==> sink == Out()
    {
      sink := [];
      if this.Scattered? {
        sink := this.blocks.Flush();
      }
    }

    lemma LengthChecked()
      requires Valid()
      ensures CheckLength() <==> |Out()| == Expected()
      ensures |Out()| <= Expected() < TWO32
    {
    }

    method Append(bytes: seq<byte>) returns (ok: bool)
      requires Valid()
      modifies Repr()
      ensures fresh(Repr() - old(Repr())) && Expected() == old(Expected()) && Beyond() == old(Beyond())
      ensures ok <==> Fits(old(Out()), Expected(), |bytes|)
      ensures ok ==> Valid() && Out() == old(Out()) + bytes
    {
      match this {
        case Flat(w) => ok := w.Append(bytes);
        case Vector(w) => ok := w.Append(bytes); w.KeptIsBeyond();
        case Scattered(w) => ok := w.Append(bytes);
        case Checker(w) => ok := w.Append(bytes);
      }
    }

    method TryFastAppend(src: seq<byte>, available: nat, len: nat) returns (ok: bool)
      requires Valid() && available <= |src|
      modifies Repr()
      ensures Repr() == old(Repr()) && Expected() == old(Expected()) && Beyond() == old(Beyond())
      ensures Valid() && (ok ==> len <= 16 && len + 5 <= available)
      ensures Out() == if ok then old(Out()) + src[..len] else old(Out())
    {
      match this {
        case Flat(w) => ok := w.TryFastAppend(src, available, len);
        case Vector(w) => ok := w.TryFastAppend(src, available, len); w.KeptIsBeyond();
        case Scattered(w) => ok := w.TryFastAppend(src, available, len);
        case Checker(w) => ok := w.TryFastAppend(src, available, len);
      }
    }

    method AppendFromSelf(offset: nat, len: nat) returns (ok: bool)
      requires Valid() && offset < TWO64
      modifies Repr()
      ensures fresh(Repr() - old(Repr())) && Expected() == old(Expected()) && Beyond() == old(Beyond())
      ensures ok <==> CopyFits(old(Out()), Expected(), offset, len)
      ensures ok ==> Valid() && Out() == CopyFromSelf(old(Out()), offset, len)
    {
      match this {
        case Flat(w) => ok := w.AppendFromSelf(offset, len);
        case Vector(w) => ok := w.AppendFromSelf(offset, len); w.KeptIsBeyond();
        case Scattered(w) => ok := w.AppendFromSelf(offset, len);
        case Checker(w) => ok := w.AppendFromSelf(offset, len);
      }
    }
  }
}
