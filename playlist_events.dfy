/** The change events the playlist callbacks post to the model's thread:
    four application event type codes and the PLEvent record. */
module PlaylistEvents {

  datatype Option<T> = None | Some(value: T)

  /** QEvent::User, the first event type Qt leaves to applications. */
  const QEventUser: int := 1000

  const ItemUpdateType: int := QEventUser + 2
  const ItemDeleteType: int := QEventUser + 3
  const ItemAppendType: int := QEventUser + 4
  const PLUpdateType: int := QEventUser + 5

  /** Qt 4 keeps a QEvent's type in an unsigned 16-bit field. */
  newtype UShort = x: int | 0 <= x < 0x1_0000

  /** The conversion of an int to that field: the value modulo 2^16. */
  function ToUShort(x: int): (t: UShort)
    ensures 0 <= x < 0x1_0000 ==> t as int == x
    ensures (t as int - x) % 0x1_0000 == 0
  {
    (x % 0x1_0000) as UShort
  }

  /** The four kinds of playlist change, one per type code. */
  datatype EventKind = ItemUpdate | ItemDelete | ItemAppend | PLUpdate

  function TypeCode(k: EventKind): int
  {
    match k
    case ItemUpdate => ItemUpdateType
    case ItemDelete => ItemDeleteType
    case ItemAppend => ItemAppendType
    case PLUpdate => PLUpdateType
  }

  /** Recognises a QEvent type code as one of the playlist kinds. */
  function KindOf(code: int): (k: Option<EventKind>)
    ensures k.Some? ==> TypeCode(k.value) == code
    ensures k.None? <==> code < QEventUser + 2 || QEventUser + 5 < code
  {
    if code == ItemUpdateType then Some(ItemUpdate)
    else if code == ItemDeleteType then Some(ItemDelete)
    else if code == ItemAppendType then Some(ItemAppend)
    else if code == PLUpdateType then Some(PLUpdate)
    else None
  }

  /** Every kind is recognised back from its own code. */
  lemma KindOfTypeCode(k: EventKind)
    ensures KindOf(TypeCode(k)) == Some(k)
  {
  }

  /** The four codes are pairwise distinct and all lie above QEvent::User. */
  lemma TypeCodesDistinct(k1: EventKind, k2: EventKind)
    ensures TypeCode(k1) == TypeCode(k2) <==> k1 == k2
    ensures QEventUser < TypeCode(k1)
  {
    KindOfTypeCode(k1);
    KindOfTypeCode(k2);
  }

  /** An opaque playlist_add_t: the append notification's payload, whose
      contents belong to the playlist core and are not modelled. */
  class PlaylistAdd {}

  /** A PLEvent. Which fields carry meaning depends on the constructor used:
      PLEvent(type, id) fixes the type and the item id and clears the
      payload; PLEvent(add) fixes the type to ItemAppend and the payload and
      leaves the id unset. */
  datatype PLEvent =
    | IdEvent(code: UShort, itemId: int)
    | AppendEvent(add: PlaylistAdd?)
  {
    /** The QEvent type. */
    function Type(): int
    {
      if IdEvent? then code as int else ItemAppendType
    }

    /** i_id, when the constructor set it. */
    function Id(): Option<int>
    {
      if IdEvent? then Some(itemId) else None
    }

    /** p_add. */
    function Add(): PlaylistAdd?
    {
      if IdEvent? then null else add
    }

    /** A well-formed playlist event: its type is one of the four codes, and
        it carries an append payload exactly when it is an append. */
    predicate Valid()
    {
      match KindOf(Type())
      case None => false
      case Some(k) => (k == ItemAppend) == (Add() != null)
    }
  }

  /** PLEvent(type, id). The type passes through QEvent's 16-bit field, so
      a code in 0 .. 65535 is kept as given and any other is narrowed. */
  function NewIdEvent(code: int, id: int): (e: PLEvent)
    ensures 0 <= code < 0x1_0000 ==> e.Type() == code
    ensures 0 <= e.Type() < 0x1_0000 && (e.Type() - code) % 0x1_0000 == 0
    ensures e.Id() == Some(id)
    ensures e.Add() == null
  {
    IdEvent(ToUShort(code), id)
  }

  /** PLEvent(playlist_add_t *a). */
  function NewAppendEvent(a: PlaylistAdd?): (e: PLEvent)
    ensures e.Type() == ItemAppendType
    ensures e.Add() == a
    ensures e.Id() == None
  {
    AppendEvent(a)
  }

  /** An id-carrying event is well formed exactly when its narrowed code is
      the update, delete or playlist-update code: with the append code it
      would lack its payload. */
  lemma IdEventValid(code: int, id: int)
    ensures NewIdEvent(code, id).Valid() <==>
      code % 0x1_0000 in {ItemUpdateType, ItemDeleteType, PLUpdateType}
  {
  }

  /** A code 2^16 above a playlist code builds an event of that playlist
      kind: the narrowing makes the two codes indistinguishable. */
  lemma IdEventNarrowed(k: EventKind, id: int)
    requires k != ItemAppend
    ensures NewIdEvent(TypeCode(k) + 0x1_0000, id).Type() == TypeCode(k)
    ensures NewIdEvent(TypeCode(k) + 0x1_0000, id).Valid()
  {
  }

  /** An append event is well formed exactly when its payload is present. */
  lemma AppendEventValid(a: PlaylistAdd?)
    ensures NewAppendEvent(a).Valid() <==> a != null
  {
  }

  /** The well-formed events, by constructor: an id event with the update,
      delete or playlist-update code, or an append event with its payload. */
  lemma ValidByConstructor(e: PLEvent)
    ensures e.Valid() <==>
      (e.IdEvent? && e.code as int in {ItemUpdateType, ItemDeleteType, PLUpdateType}) ||
      (e.AppendEvent? && e.add != null)
  {
  }
}
