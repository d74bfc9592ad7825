/**
  The constant tables of ssdb-1.9.2/src/ssdb/const.h as closed enumerations
  with their one-byte encodings: the kind tags that prefix every stored key
  (class `DataType`), then in the modules below the binlog replication
  types and the binlog command codes.
 */
module Const {
  import opened Wrappers
  import opened ByteStrings

  /** Longest container name the server accepts. */
  const KEY_LEN_MAX: nat := 255

  /** The bound on container names. */
  lemma KeyLenMax()
    ensures KEY_LEN_MAX == 255
  {
  }

  // ---------------------------------------------------------------------------
  // DataType: the kind tag that starts every stored key
  // ---------------------------------------------------------------------------

  datatype DataType =
    | Synclog | Meta | Kv | Hash | HSize | ZSize | SSize | LSize
    | Item | ZSet | ZScore | EScore | EKey | Queue | QSize | Delete

  /**
    The tag byte of each kind. `Item` reuses the byte of `SSize`. Apart
    from `Synclog` every tag is an ASCII letter, lower case exactly for the
    kinds whose rows hold data (plain keys, hash fields, sorted-set members
    and scores, queue items) and upper case for the size, expiry, meta and
    delete kinds.
   */
  function Tag(t: DataType): (r: byte)
    ensures t == Synclog <==> r == 1
    ensures t != Synclog ==> IsUpper(r) || IsLowerLetter(r)
    ensures IsLowerLetter(r) <==> t == Kv || t == Hash || t == ZSet || t == ZScore || t == Queue
  {
    match t
    case Synclog => 1
    case Meta => 77     // 'M'
    case Kv => 107      // 'k'
    case Hash => 104    // 'h'
    case HSize => 72    // 'H'
    case ZSize => 90    // 'Z'
    case SSize => 83    // 'S'
    case LSize => 76    // 'L'
    case Item => 83     // 'S'
    case ZSet => 115    // 's'
    case ZScore => 122  // 'z'
    case EScore => 84   // 'T'
    case EKey => 69     // 'E'
    case Queue => 113   // 'q'
    case QSize => 81    // 'Q'
    case Delete => 68   // 'D'
  }

  const MIN_PREFIX: byte := Tag(Hash)
  const MAX_PREFIX: byte := Tag(ZSet)

  /** The representative of each kind once `Item` and `SSize` are one tag. */
  function Canonical(t: DataType): DataType {
    if t == Item then SSize else t
  }

  /** The kind a tag byte names, reading the shared 'S' as `SSize`. */
  function KindOfTag(b: byte): (r: Option<DataType>)
    ensures r.Some? ==> Tag(r.value) == b && Canonical(r.value) == r.value
  {
    if b == 1 then Some(Synclog)
    else if b == 77 then Some(Meta)
    else if b == 107 then Some(Kv)
    else if b == 104 then Some(Hash)
    else if b == 72 then Some(HSize)
    else if b == 90 then Some(ZSize)
    else if b == 83 then Some(SSize)
    else if b == 76 then Some(LSize)
    else if b == 115 then Some(ZSet)
    else if b == 122 then Some(ZScore)
    else if b == 84 then Some(EScore)
    else if b == 69 then Some(EKey)
    else if b == 113 then Some(Queue)
    else if b == 81 then Some(QSize)
    else if b == 68 then Some(Delete)
    else None
  }

  /** Decoding a kind's tag gives back the kind, up to the one alias. */
  lemma TagRoundTrip(t: DataType)
    ensures KindOfTag(Tag(t)) == Some(Canonical(t))
  {
  }

  /**
    Two kinds share a tag exactly when they are the same kind once `Item`
    and `SSize` are identified: the encoding is injective up to that alias.
   */
  lemma TagInjectiveUpToAlias(a: DataType, b: DataType)
    ensures Tag(a) == Tag(b) <==> Canonical(a) == Canonical(b)
  {
    TagRoundTrip(a);
    TagRoundTrip(b);
  }

  /** The alias is real: two different kinds, one byte. */
  lemma ItemSharesSSizeTag()
    ensures Item != SSize && Tag(Item) == Tag(SSize)
  {
  }

  /**
    The hash row tag and the hash size tag belong to no other kind, which
    is what lets a key's tag tell a hash apart from every other container.
   */
  lemma HashTagsExclusive(t: DataType)
    ensures Tag(t) == Tag(Hash) <==> t == Hash
    ensures Tag(t) == Tag(HSize) <==> t == HSize
    ensures Tag(Hash) != Tag(HSize)
  {
    TagInjectiveUpToAlias(t, Hash);
    TagInjectiveUpToAlias(t, HSize);
  }

  /**
    The tags between `MIN_PREFIX` and `MAX_PREFIX` inclusive are exactly
    those of the data rows of hashes, plain keys, queues and sorted-set
    members; `ZScore` sorts above the range.
   */
  lemma PrefixRange(t: DataType)
    ensures MIN_PREFIX == Tag(Hash) && MAX_PREFIX == Tag(ZSet)
    ensures MIN_PREFIX <= Tag(t) <= MAX_PREFIX <==> t == Hash || t == Kv || t == Queue || t == ZSet
    ensures Tag(ZScore) > MAX_PREFIX
  {
  }
}

/** The replication kinds a binlog record carries (class `BinlogType`). */
module BinlogTypes {
  import opened Wrappers
  import opened ByteStrings

  datatype BinlogType = Noop | Sync | Mirror | Copy | Ctrl

  /** The code of each type; the codes are the small values 0 to 4. */
  function TypeCode(t: BinlogType): (r: byte)
    ensures r <= 4
  {
    match t
    case Noop => 0
    case Sync => 1
    case Mirror => 2
    case Copy => 3
    case Ctrl => 4
  }

  function TypeOfCode(b: byte): (r: Option<BinlogType>)
    ensures r.Some? ==> TypeCode(r.value) == b
  {
    if b == 0 then Some(Noop)
    else if b == 1 then Some(Sync)
    else if b == 2 then Some(Mirror)
    else if b == 3 then Some(Copy)
    else if b == 4 then Some(Ctrl)
    else None
  }

  /** The type codes are the distinct values 0 to 4 and nothing else. */
  lemma TypeCodesDistinct(a: BinlogType, b: BinlogType, c: byte)
    ensures TypeOfCode(TypeCode(a)) == Some(a)
    ensures TypeCode(a) == TypeCode(b) <==> a == b
    ensures TypeOfCode(c).Some? <==> c <= 4
  {
  }
}

/**
  The command codes a binlog record carries (class `BinlogCommand`). The
  module does not open `Wrappers`, whose `None` would clash with the
  `NONE` command.
 */
module BinlogCommands {
  import Wrappers
  import opened ByteStrings

  datatype BinlogCommand =
    | None | KSet | KDel | HSet | HDel | ZSet | ZDel | Begin | End
    | QPushBack | QPushFront | QPopBack | QPopFront | QSet | ESet | EDel
    | SSet | SDel | DelKey

  /** The code of each command; the codes stay below 20 and skip 9. */
  function CommandCode(c: BinlogCommand): (r: byte)
    ensures r <= 19 && r != 9
  {
    match c
    case None => 0
    case KSet => 1
    case KDel => 2
    case HSet => 3
    case HDel => 4
    case ZSet => 5
    case ZDel => 6
    case Begin => 7
    case End => 8
    case QPushBack => 10
    case QPushFront => 11
    case QPopBack => 12
    case QPopFront => 13
    case QSet => 14
    case ESet => 15
    case EDel => 16
    case SSet => 17
    case SDel => 18
    case DelKey => 19
  }

  function CommandOfCode(b: byte): (r: Wrappers.Option<BinlogCommand>)
    ensures r.Some? ==> CommandCode(r.value) == b
  {
    if b == 0 then Wrappers.Some(None)
    else if b == 1 then Wrappers.Some(KSet)
    else if b == 2 then Wrappers.Some(KDel)
    else if b == 3 then Wrappers.Some(HSet)
    else if b == 4 then Wrappers.Some(HDel)
    else if b == 5 then Wrappers.Some(ZSet)
    else if b == 6 then Wrappers.Some(ZDel)
    else if b == 7 then Wrappers.Some(Begin)
    else if b == 8 then Wrappers.Some(End)
    else if b == 10 then Wrappers.Some(QPushBack)
    else if b == 11 then Wrappers.Some(QPushFront)
    else if b == 12 then Wrappers.Some(QPopBack)
    else if b == 13 then Wrappers.Some(QPopFront)
    else if b == 14 then Wrappers.Some(QSet)
    else if b == 15 then Wrappers.Some(ESet)
    else if b == 16 then Wrappers.Some(EDel)
    else if b == 17 then Wrappers.Some(SSet)
    else if b == 18 then Wrappers.Some(SDel)
    else if b == 19 then Wrappers.Some(DelKey)
    else Wrappers.None
  }

  /** The commands the hash layer logs for its mutations. */
  predicate IsHashMutation(c: BinlogCommand) {
    c == HSet || c == HDel
  }

  /**
    The command codes are pairwise distinct and occupy 0 to 8 and 10 to
    19, leaving 9 unused; the hash mutations are exactly codes 3 and 4.
   */
  lemma CommandCodesDistinct(a: BinlogCommand, b: BinlogCommand, c: byte)
    ensures CommandOfCode(CommandCode(a)) == Wrappers.Some(a)
    ensures CommandCode(a) == CommandCode(b) <==> a == b
    ensures CommandOfCode(c).Some? <==> c <= 19 && c != 9
    ensures IsHashMutation(a) <==> CommandCode(a) == 3 || CommandCode(a) == 4
  {
  }
}
