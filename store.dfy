/**
 * The flash key-value store (ESP-IDF NVS) as the loader sees it: one
 * namespace holding one blob per key, an open that may fail, a flash
 * initialisation whose result is reported by the platform, and an erase.
 * Its internals are not modelled; every call is logged in a ghost trace so
 * that the loader's order of calls can be stated.
 */
module Store {
  import opened Params

  datatype Option<T> = None | Some(value: T)

  /** The results of `nvs_flash_init` the loader tells apart. */
  datatype FlashInitResult = Ok | NoFreePages | NewVersionFound | Other

  /** The two results after which the loader erases the flash. */
  predicate NeedsErase(r: FlashInitResult) {
    r == NoFreePages || r == NewVersionFound
  }

  /** The six keys of the "nvram" namespace; `Name` is the key string `nvs_get_blob` is given. */
  datatype Key = NetKey | TokenKey | MqttKey | MiscKey | FoldsKey | BeaconKey {
    function Name(): string {
      match this
      case NetKey => "net"
      case TokenKey => "token"
      case MqttKey => "mqtt"
      case MiscKey => "misc"
      case FoldsKey => "folds"
      case BeaconKey => "beacon"
    }
  }

  /** Each record is stored under a name of its own. */
  lemma KeyNamesDistinct(k1: Key, k2: Key)
    ensures k1.Name() == k2.Name() <==> k1 == k2
  {
  }

  /** A stored blob, already read as the record it holds. */
  datatype Blob =
    | NetBlob(net: Net)
    | TokenBlob(token: Token)
    | MqttBlob(mqtt: Mqtt)
    | MiscBlob(misc: Misc)
    | FoldsBlob(folds: seq<byte>)
    | BeaconBlob(beacon: Beacon)

  /** The key under which a blob of this kind is stored. */
  function KeyOf(b: Blob): Key {
    match b
    case NetBlob(_) => NetKey
    case TokenBlob(_) => TokenKey
    case MqttBlob(_) => MqttKey
    case MiscBlob(_) => MiscKey
    case FoldsBlob(_) => FoldsKey
    case BeaconBlob(_) => BeaconKey
  }

  /** Blob `b` has the record's fixed size. */
  predicate SizeFits(b: Blob, foldCount: nat) {
    match b
    case TokenBlob(t) => t.Valid()
    case MqttBlob(m) => m.Valid()
    case FoldsBlob(f) => |f| == foldCount
    case _ => true
  }

  /** Every key holds a record of its own kind. */
  predicate Typed(contents: map<Key, Blob>) {
    forall k :: k in contents ==> KeyOf(contents[k]) == k
  }

  /** Every key holds a record of its own kind and of that record's size. */
  predicate WellFormed(contents: map<Key, Blob>, foldCount: nat) {
    && Typed(contents)
    && forall k :: k in contents ==> SizeFits(contents[k], foldCount)
  }

  /** One call into the store, as the trace records it. */
  datatype Op =
    | InitCall(reported: FlashInitResult)
    | EraseCall
    | OpenCall(ok: bool)
    | GetCall(key: Key)
    | CloseCall

  class Nvs {
    var contents: map<Key, Blob>
    /** Whether `nvs_open` of the namespace fails. */
    const openFails: bool
    /** The number of fold entries a "folds" blob holds. */
    const foldCount: nat
    var handleOpen: bool
    ghost var trace: seq<Op>

    ghost predicate Valid()
      reads this
    {
      WellFormed(contents, foldCount)
    }

    constructor (contents: map<Key, Blob>, openFails: bool, foldCount: nat)
      requires WellFormed(contents, foldCount)
      ensures Valid()
      ensures this.contents == contents && this.openFails == openFails && this.foldCount == foldCount
      ensures !handleOpen && trace == []
    {
      this.contents := contents;
      this.openFails := openFails;
      this.foldCount := foldCount;
      handleOpen := false;
      trace := [];
    }

    /** `nvs_flash_init`; `reported` is what the platform answers. */
    method FlashInit(reported: FlashInitResult) returns (err: FlashInitResult)
      modifies this`trace
      ensures err == reported
      ensures trace == old(trace) + [InitCall(reported)]
    {
      trace := trace + [InitCall(reported)];
      err := reported;
    }

    /** `nvs_flash_erase`: every key is gone. */
    method FlashErase()
      requires Valid()
      modifies this`contents, this`trace
      ensures Valid()
      ensures contents == map[]
      ensures trace == old(trace) + [EraseCall]
    {
      contents := map[];
      trace := trace + [EraseCall];
    }

    /** `nvs_open` read-only; on success a handle is held. */
    method Open() returns (ok: bool)
      requires !handleOpen
      modifies this`handleOpen, this`trace
      ensures ok == !openFails
      ensures handleOpen == ok
      ensures trace == old(trace) + [OpenCall(ok)]
    {
      ok := !openFails;
      handleOpen := ok;
      trace := trace + [OpenCall(ok)];
    }

    /** `nvs_get_blob`: the stored record, or None when the key is missing. */
    method GetBlob(k: Key) returns (b: Option<Blob>)
      requires handleOpen
      modifies this`trace
      ensures b == if k in contents then Some(contents[k]) else None
      ensures trace == old(trace) + [GetCall(k)]
    {
      b := if k in contents then Some(contents[k]) else None;
      trace := trace + [GetCall(k)];
    }

    /** `nvs_close`: the handle is released. */
    method Close()
      requires handleOpen
      modifies this`handleOpen, this`trace
      ensures !handleOpen
      ensures trace == old(trace) + [CloseCall]
    {
      handleOpen := false;
      trace := trace + [CloseCall];
    }
  }
}
