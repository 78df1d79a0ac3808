/**
 * The configuration loader (main/nvram.c): one process-wide snapshot that
 * `nvram_init` zeroes and then fills from the flash store, record by record,
 * after deriving the device identity.
 *
 * The first half states what a call of `nvram_init` does as values: the
 * store calls it makes (`InitOps`), the store it leaves (`AfterSetup`) and
 * which records it loads (`Loaded`). The lemmas there are the properties of
 * the loader; the class at the end is the loader itself, proved to do what
 * these functions say.
 */
module Nvram {
  import opened Params
  import opened Utils
  import opened Store

  /** The 16 bytes `XXH3_128bits` yields. */
  type Digest = s: seq<byte> | |s| == SERIAL_LEN witness Zeros(SERIAL_LEN)

  /** The four records without which the device needs provisioning, in the order they are read. */
  const MANDATORY: seq<Key> := [NetKey, TokenKey, MqttKey, MiscKey]

  // ---------------------------------------------------------------------
  // What one reader does

  /** A reader's get succeeds: the namespace opens and its key is stored. */
  predicate ReadOk(openFails: bool, contents: map<Key, Blob>, k: Key) {
    !openFails && k in contents
  }

  /** The store calls of one reader: a failed open, or open, get and close. */
  function ReaderOps(openFails: bool, k: Key): seq<Op> {
    if openFails then [OpenCall(false)] else [OpenCall(true), GetCall(k), CloseCall]
  }

  /** The beacon record after its reader ran on a zeroed record. */
  function BeaconAfter(openFails: bool, contents: map<Key, Blob>): (b: Beacon)
    requires Typed(contents)
    ensures openFails ==> b == ZERO_BEACON
    ensures !openFails && BeaconKey !in contents ==> !b.enable
    ensures !openFails && BeaconKey in contents ==> b == contents[BeaconKey].beacon
    ensures b.enable ==> !openFails && BeaconKey in contents && contents[BeaconKey].beacon.enable
  {
    if openFails then ZERO_BEACON
    else if BeaconKey in contents then contents[BeaconKey].beacon
    else ZERO_BEACON.(enable := false)
  }

  // ---------------------------------------------------------------------
  // The mandatory reads, joined by a short-circuit `||`

  /** Every key of `keys` is read successfully. */
  predicate AllReadOk(openFails: bool, contents: map<Key, Blob>, keys: seq<Key>) {
    forall i :: 0 <= i < |keys| ==> ReadOk(openFails, contents, keys[i])
  }

  /** The keys whose readers run: up to and including the first that fails. */
  function Attempted(openFails: bool, contents: map<Key, Blob>, keys: seq<Key>): seq<Key> {
    if keys == [] then []
    else if ReadOk(openFails, contents, keys[0]) then [keys[0]] + Attempted(openFails, contents, keys[1..])
    else [keys[0]]
  }

  /** The store calls of the readers of `keys`, one after another. */
  function ReadersOps(openFails: bool, keys: seq<Key>): seq<Op> {
    if keys == [] then [] else ReaderOps(openFails, keys[0]) + ReadersOps(openFails, keys[1..])
  }

  /** "Provisioning Required" is reported. */
  predicate ProvisioningRequired(openFails: bool, contents: map<Key, Blob>) {
    !AllReadOk(openFails, contents, MANDATORY)
  }

  /** A mandatory record is loaded: its reader runs and its get succeeds. */
  predicate Loaded(openFails: bool, contents: map<Key, Blob>, k: Key) {
    k in Attempted(openFails, contents, MANDATORY) && ReadOk(openFails, contents, k)
  }

  // ---------------------------------------------------------------------
  // The whole of `nvram_init`

  /** The store once flash initialisation is done: erased after a "needs formatting" result. */
  function AfterSetup(first: FlashInitResult, contents: map<Key, Blob>): map<Key, Blob> {
    if NeedsErase(first) then map[] else contents
  }

  /** Flash initialisation: one init, or init, erase and a second init. */
  function SetupOps(first: FlashInitResult, second: FlashInitResult): seq<Op> {
    if NeedsErase(first) then [InitCall(first), EraseCall, InitCall(second)] else [InitCall(first)]
  }

  /** Every store call `nvram_init` makes, in order. */
  function InitOps(first: FlashInitResult, second: FlashInitResult, openFails: bool, contents: map<Key, Blob>): seq<Op> {
    SetupOps(first, second)
    + ReaderOps(openFails, BeaconKey)
    + ReadersOps(openFails, Attempted(openFails, AfterSetup(first, contents), MANDATORY))
  }

  // ---------------------------------------------------------------------
  // Reading a trace

  function Count(ops: seq<Op>, op: Op): nat {
    if ops == [] then 0 else (if ops[0] == op then 1 else 0) + Count(ops[1..], op)
  }

  /** The results of the flash inits, in order. */
  function InitResults(ops: seq<Op>): seq<FlashInitResult> {
    if ops == [] then [] else (if ops[0].InitCall? then [ops[0].reported] else []) + InitResults(ops[1..])
  }

  /** The keys fetched, in order. */
  function GetKeys(ops: seq<Op>): seq<Key> {
    if ops == [] then [] else (if ops[0].GetCall? then [ops[0].key] else []) + GetKeys(ops[1..])
  }

  /**
   * Handles are used in brackets: a successful open is followed at once by
   * one get and one close, and no get or close happens without one.
   */
  predicate Bracketed(ops: seq<Op>)
    decreases |ops|
  {
    if ops == [] then true
    else match ops[0]
      case OpenCall(ok) =>
        if ok then |ops| >= 3 && ops[1].GetCall? && ops[2] == CloseCall && Bracketed(ops[3..])
        else Bracketed(ops[1..])
      case GetCall(_) => false
      case CloseCall => false
      case _ => Bracketed(ops[1..])
  }

  lemma {:induction false} CountAppend(a: seq<Op>, b: seq<Op>, op: Op)
    ensures Count(a + b, op) == Count(a, op) + Count(b, op)
  {
    if a == [] {
      assert a + b == b;
    } else {
      assert (a + b)[0] == a[0];
      assert (a + b)[1..] == a[1..] + b;
      CountAppend(a[1..], b, op);
    }
  }

  lemma {:induction false} GetKeysAppend(a: seq<Op>, b: seq<Op>)
    ensures GetKeys(a + b) == GetKeys(a) + GetKeys(b)
  {
    if a == [] {
      assert a + b == b;
    } else {
      assert (a + b)[0] == a[0];
      assert (a + b)[1..] == a[1..] + b;
      GetKeysAppend(a[1..], b);
    }
  }

  lemma {:induction false} InitResultsAppend(a: seq<Op>, b: seq<Op>)
    ensures InitResults(a + b) == InitResults(a) + InitResults(b)
  {
    if a == [] {
      assert a + b == b;
    } else {
      assert (a + b)[0] == a[0];
      assert (a + b)[1..] == a[1..] + b;
      InitResultsAppend(a[1..], b);
    }
  }

  /** A trace without any init call has no init results. */
  lemma {:induction false} NoInitNoResults(ops: seq<Op>)
    requires forall r :: Count(ops, InitCall(r)) == 0
    ensures InitResults(ops) == []
  {
    if ops != [] {
      forall r ensures ops[0] != InitCall(r) && Count(ops[1..], InitCall(r)) == 0 {
        assert Count(ops, InitCall(r)) == 0;
      }
      assert !ops[0].InitCall?;
      NoInitNoResults(ops[1..]);
    }
  }

  lemma {:induction false} BracketedAppend(a: seq<Op>, b: seq<Op>)
    requires Bracketed(a) && Bracketed(b)
    ensures Bracketed(a + b)
    decreases |a|
  {
    if a == [] {
      assert a + b == b;
    } else {
      assert (a + b)[0] == a[0];
      if a[0] == OpenCall(true) {
        assert (a + b)[1] == a[1] && (a + b)[2] == a[2];
        assert (a + b)[3..] == a[3..] + b;
        BracketedAppend(a[3..], b);
      } else {
        assert (a + b)[1..] == a[1..] + b;
        BracketedAppend(a[1..], b);
      }
    }
  }

  lemma SingleOpFacts(x: Op, op: Op)
    ensures Count([x], op) == if x == op then 1 else 0
    ensures GetKeys([x]) == if x.GetCall? then [x.key] else []
  {
    assert [x][1..] == [];
  }

  /** What the calls of one reader contain. */
  lemma ReaderOpsFacts(openFails: bool, k: Key, r: FlashInitResult)
    ensures GetKeys(ReaderOps(openFails, k)) == if openFails then [] else [k]
    ensures Count(ReaderOps(openFails, k), EraseCall) == 0
    ensures Count(ReaderOps(openFails, k), InitCall(r)) == 0
    ensures Bracketed(ReaderOps(openFails, k))
  {
    var ops := ReaderOps(openFails, k);
    if openFails {
      SingleOpFacts(OpenCall(false), EraseCall);
      SingleOpFacts(OpenCall(false), InitCall(r));
      assert ops[1..] == [];
    } else {
      assert ops == [OpenCall(true)] + [GetCall(k)] + [CloseCall];
      forall op | op == EraseCall || op == InitCall(r)
        ensures Count(ops, op) == 0
      {
        SingleOpFacts(OpenCall(true), op);
        SingleOpFacts(GetCall(k), op);
        SingleOpFacts(CloseCall, op);
        CountAppend([OpenCall(true)], [GetCall(k)], op);
        CountAppend([OpenCall(true)] + [GetCall(k)], [CloseCall], op);
      }
      SingleOpFacts(OpenCall(true), EraseCall);
      SingleOpFacts(GetCall(k), EraseCall);
      SingleOpFacts(CloseCall, EraseCall);
      GetKeysAppend([OpenCall(true)], [GetCall(k)]);
      GetKeysAppend([OpenCall(true)] + [GetCall(k)], [CloseCall]);
      assert ops[3..] == [];
    }
  }

  /** What the flash initialisation calls contain. */
  lemma SetupOpsFacts(first: FlashInitResult, second: FlashInitResult)
    ensures GetKeys(SetupOps(first, second)) == []
    ensures Count(SetupOps(first, second), EraseCall) == if NeedsErase(first) then 1 else 0
    ensures !NeedsErase(first) ==> Count(SetupOps(first, second), InitCall(first)) == 1
    ensures Bracketed(SetupOps(first, second))
  {
    var ops := SetupOps(first, second);
    SingleOpFacts(InitCall(first), EraseCall);
    SingleOpFacts(InitCall(first), InitCall(first));
    if NeedsErase(first) {
      assert ops == [InitCall(first)] + [EraseCall] + [InitCall(second)];
      SingleOpFacts(EraseCall, EraseCall);
      SingleOpFacts(InitCall(second), EraseCall);
      CountAppend([InitCall(first)], [EraseCall], EraseCall);
      CountAppend([InitCall(first)] + [EraseCall], [InitCall(second)], EraseCall);
      GetKeysAppend([InitCall(first)], [EraseCall]);
      GetKeysAppend([InitCall(first)] + [EraseCall], [InitCall(second)]);
      assert ops[1..] == [EraseCall, InitCall(second)];
      assert ops[1..][1..] == [InitCall(second)];
      assert ops[1..][1..][1..] == [];
      assert Bracketed(ops[1..][1..]);
      assert Bracketed(ops[1..]);
    } else {
      assert ops[1..] == [];
    }
  }

  // ---------------------------------------------------------------------
  // Properties of the mandatory reads

  /**
   * The readers that run are a prefix of `keys`, never empty when `keys` is
   * not; reader i runs exactly when every reader before it succeeded.
   */
  lemma {:induction false} AttemptedPrefix(openFails: bool, contents: map<Key, Blob>, keys: seq<Key>)
    ensures |Attempted(openFails, contents, keys)| <= |keys|
    ensures Attempted(openFails, contents, keys) == keys[..|Attempted(openFails, contents, keys)|]
    ensures keys != [] ==> |Attempted(openFails, contents, keys)| > 0
    ensures forall i :: 0 <= i < |keys| ==>
      (i < |Attempted(openFails, contents, keys)| <==> AllReadOk(openFails, contents, keys[..i]))
  {
    if keys != [] {
      var a := Attempted(openFails, contents, keys);
      AttemptedPrefix(openFails, contents, keys[1..]);
      forall i | 0 <= i < |keys|
        ensures i < |a| <==> AllReadOk(openFails, contents, keys[..i])
      {
        if i > 0 {
          assert keys[..i][1..] == keys[1..][..i - 1];
          assert keys[..i][0] == keys[0];
          if AllReadOk(openFails, contents, keys[..i]) {
            assert ReadOk(openFails, contents, keys[..i][0]);
          } else if ReadOk(openFails, contents, keys[0]) {
            assert !AllReadOk(openFails, contents, keys[1..][..i - 1]) by {
              forall j | 0 <= j < i ensures j > 0 ==> keys[..i][j] == keys[1..][..i - 1][j - 1] { }
            }
          }
        }
      }
    }
  }

  /** The keys fetched by the readers of `keys` are `keys` itself, or none when the open fails. */
  lemma {:induction false} ReadersGetKeys(openFails: bool, keys: seq<Key>)
    ensures GetKeys(ReadersOps(openFails, keys)) == if openFails then [] else keys
  {
    if keys != [] {
      GetKeysAppend(ReaderOps(openFails, keys[0]), ReadersOps(openFails, keys[1..]));
      ReadersGetKeys(openFails, keys[1..]);
      ReaderOpsFacts(openFails, keys[0], Ok);
      assert keys == [keys[0]] + keys[1..];
    }
  }

  lemma {:induction false} ReadersBracketed(openFails: bool, keys: seq<Key>)
    ensures Bracketed(ReadersOps(openFails, keys))
  {
    if keys != [] {
      ReadersBracketed(openFails, keys[1..]);
      ReaderOpsFacts(openFails, keys[0], Ok);
      BracketedAppend(ReaderOps(openFails, keys[0]), ReadersOps(openFails, keys[1..]));
    }
  }

  lemma {:induction false} ReadersDoNotFormat(openFails: bool, keys: seq<Key>, r: FlashInitResult)
    ensures Count(ReadersOps(openFails, keys), EraseCall) == 0
    ensures Count(ReadersOps(openFails, keys), InitCall(r)) == 0
  {
    if keys != [] {
      ReadersDoNotFormat(openFails, keys[1..], r);
      ReaderOpsFacts(openFails, keys[0], r);
      CountAppend(ReaderOps(openFails, keys[0]), ReadersOps(openFails, keys[1..]), EraseCall);
      CountAppend(ReaderOps(openFails, keys[0]), ReadersOps(openFails, keys[1..]), InitCall(r));
    }
  }

  /** A mandatory record is loaded exactly when it and every record before it read successfully. */
  lemma LoadedInOrder(openFails: bool, contents: map<Key, Blob>, i: nat)
    requires i < |MANDATORY|
    ensures Loaded(openFails, contents, MANDATORY[i]) <==> AllReadOk(openFails, contents, MANDATORY[..i + 1])
  {
    AttemptedPrefix(openFails, contents, MANDATORY);
    var a := Attempted(openFails, contents, MANDATORY);
    assert MANDATORY[..i + 1] == MANDATORY[..i] + [MANDATORY[i]];
    if MANDATORY[i] in a {
      var j :| 0 <= j < |a| && a[j] == MANDATORY[i];
      assert MANDATORY[j] == MANDATORY[i];
    }
    if AllReadOk(openFails, contents, MANDATORY[..i + 1]) {
      assert AllReadOk(openFails, contents, MANDATORY[..i]) by {
        forall j | 0 <= j < i ensures ReadOk(openFails, contents, MANDATORY[..i][j]) {
          assert MANDATORY[..i][j] == MANDATORY[..i + 1][j];
        }
      }
      assert a[i] == MANDATORY[i];
    }
  }

  /** "Provisioning Required" is reported iff one of net, token, mqtt and misc fails to read. */
  lemma ProvisioningRequiredIff(openFails: bool, contents: map<Key, Blob>)
    ensures ProvisioningRequired(openFails, contents) <==>
      exists k :: k in MANDATORY && !ReadOk(openFails, contents, k)
    ensures ProvisioningRequired(openFails, contents) <==>
      exists k :: k in MANDATORY && !Loaded(openFails, contents, k)
  {
    if ProvisioningRequired(openFails, contents) {
      var i :| 0 <= i < |MANDATORY| && !ReadOk(openFails, contents, MANDATORY[i]);
      assert MANDATORY[i] in MANDATORY;
    } else {
      AttemptedPrefix(openFails, contents, MANDATORY);
      assert Attempted(openFails, contents, MANDATORY) == MANDATORY;
    }
  }

  /** What the folds and beacon keys hold never changes whether provisioning is required. */
  lemma ProvisioningIgnoresOptional(openFails: bool, contents: map<Key, Blob>, k: Key, b: Option<Blob>)
    requires k == FoldsKey || k == BeaconKey
    ensures var changed := if b.Some? then contents[k := b.value] else contents - {k};
      ProvisioningRequired(openFails, changed) == ProvisioningRequired(openFails, contents)
  {
    var changed := if b.Some? then contents[k := b.value] else contents - {k};
    forall i | 0 <= i < |MANDATORY|
      ensures ReadOk(openFails, changed, MANDATORY[i]) == ReadOk(openFails, contents, MANDATORY[i])
    {
      assert MANDATORY[i] != k;
    }
  }

  /** Readers after the first failing one are never called. */
  lemma NotCalledAfterFailure(openFails: bool, contents: map<Key, Blob>, i: nat, j: nat)
    requires i < j < |MANDATORY|
    requires !ReadOk(openFails, contents, MANDATORY[i])
    ensures MANDATORY[j] !in Attempted(openFails, contents, MANDATORY)
    ensures !Loaded(openFails, contents, MANDATORY[j])
  {
    AttemptedPrefix(openFails, contents, MANDATORY);
    var a := Attempted(openFails, contents, MANDATORY);
    assert !AllReadOk(openFails, contents, MANDATORY[..j]) by {
      assert MANDATORY[..j][i] == MANDATORY[i];
    }
    assert |a| <= j;
    assert forall m :: 0 <= m < |a| ==> a[m] != MANDATORY[j];
  }

  /** The mandatory readers that run: up to the first failure among net, token, mqtt and misc. */
  lemma MandatoryAttempted(openFails: bool, contents: map<Key, Blob>)
    ensures Attempted(openFails, contents, MANDATORY) ==
      if !ReadOk(openFails, contents, NetKey) then [NetKey]
      else if !ReadOk(openFails, contents, TokenKey) then [NetKey, TokenKey]
      else if !ReadOk(openFails, contents, MqttKey) then [NetKey, TokenKey, MqttKey]
      else MANDATORY
  {
    var t1, t2, t3 := [TokenKey, MqttKey, MiscKey], [MqttKey, MiscKey], [MiscKey];
    assert MANDATORY[1..] == t1 && t1[1..] == t2 && t2[1..] == t3 && t3[1..] == [];
    var a := Attempted(openFails, contents, MANDATORY);
    if ReadOk(openFails, contents, NetKey) {
      assert a == [NetKey] + Attempted(openFails, contents, t1);
      if ReadOk(openFails, contents, TokenKey) {
        assert Attempted(openFails, contents, t1) == [TokenKey] + Attempted(openFails, contents, t2);
        if ReadOk(openFails, contents, MqttKey) {
          assert Attempted(openFails, contents, t2) == [MqttKey] + Attempted(openFails, contents, t3);
          assert Attempted(openFails, contents, t3) == [MiscKey];
        }
      }
    }
  }

  /** Which mandatory records load, and whether provisioning is reported. */
  lemma MandatoryLoaded(openFails: bool, contents: map<Key, Blob>)
    ensures var net, token, mqtt, misc :=
        ReadOk(openFails, contents, NetKey), ReadOk(openFails, contents, TokenKey),
        ReadOk(openFails, contents, MqttKey), ReadOk(openFails, contents, MiscKey);
      && Loaded(openFails, contents, NetKey) == net
      && Loaded(openFails, contents, TokenKey) == (net && token)
      && Loaded(openFails, contents, MqttKey) == (net && token && mqtt)
      && Loaded(openFails, contents, MiscKey) == (net && token && mqtt && misc)
      && ProvisioningRequired(openFails, contents) == !(net && token && mqtt && misc)
  {
    MandatoryAttempted(openFails, contents);
    assert AllReadOk(openFails, contents, MANDATORY) <==>
      forall i | 0 <= i < 4 :: ReadOk(openFails, contents, MANDATORY[i]);
    assert MANDATORY[0] == NetKey && MANDATORY[1] == TokenKey && MANDATORY[2] == MqttKey && MANDATORY[3] == MiscKey;
  }

  /** The store calls of the mandatory readers that run. */
  lemma MandatoryReadersOps(openFails: bool, contents: map<Key, Blob>)
    ensures var net, token, mqtt :=
        ReadOk(openFails, contents, NetKey), ReadOk(openFails, contents, TokenKey),
        ReadOk(openFails, contents, MqttKey);
      ReadersOps(openFails, Attempted(openFails, contents, MANDATORY)) ==
        ReaderOps(openFails, NetKey)
        + (if net then ReaderOps(openFails, TokenKey) else [])
        + (if net && token then ReaderOps(openFails, MqttKey) else [])
        + (if net && token && mqtt then ReaderOps(openFails, MiscKey) else [])
  {
    MandatoryAttempted(openFails, contents);
    var rn, rt, rq, rm := ReaderOps(openFails, NetKey), ReaderOps(openFails, TokenKey),
      ReaderOps(openFails, MqttKey), ReaderOps(openFails, MiscKey);
    assert ReadersOps(openFails, [MiscKey]) == rm by {
      assert [MiscKey][1..] == [];
    }
    assert ReadersOps(openFails, [MqttKey]) == rq by {
      assert [MqttKey][1..] == [];
    }
    if !ReadOk(openFails, contents, NetKey) {
      assert [NetKey][1..] == [];
      assert ReadersOps(openFails, [NetKey]) == rn + [];
    } else if !ReadOk(openFails, contents, TokenKey) {
      assert [NetKey, TokenKey][1..] == [TokenKey];
      assert [TokenKey][1..] == [];
    } else if !ReadOk(openFails, contents, MqttKey) {
      assert [NetKey, TokenKey, MqttKey][1..] == [TokenKey, MqttKey];
      assert [TokenKey, MqttKey][1..] == [MqttKey];
      assert ReadersOps(openFails, [TokenKey, MqttKey]) == rt + rq;
    } else {
      assert MANDATORY[1..] == [TokenKey, MqttKey, MiscKey];
      assert [TokenKey, MqttKey, MiscKey][1..] == [MqttKey, MiscKey];
      assert [MqttKey, MiscKey][1..] == [MiscKey];
      assert ReadersOps(openFails, [MqttKey, MiscKey]) == rq + rm;
      assert ReadersOps(openFails, [TokenKey, MqttKey, MiscKey]) == rt + (rq + rm);
      assert rn + (rt + (rq + rm)) == rn + rt + rq + rm;
    }
  }

  /** The four mandatory reads spelled out: which run, which load, and their store calls. */
  lemma MandatoryCases(openFails: bool, contents: map<Key, Blob>)
    ensures var net, token, mqtt, misc :=
        ReadOk(openFails, contents, NetKey), ReadOk(openFails, contents, TokenKey),
        ReadOk(openFails, contents, MqttKey), ReadOk(openFails, contents, MiscKey);
      && Loaded(openFails, contents, NetKey) == net
      && Loaded(openFails, contents, TokenKey) == (net && token)
      && Loaded(openFails, contents, MqttKey) == (net && token && mqtt)
      && Loaded(openFails, contents, MiscKey) == (net && token && mqtt && misc)
      && ProvisioningRequired(openFails, contents) == !(net && token && mqtt && misc)
      && ReadersOps(openFails, Attempted(openFails, contents, MANDATORY)) ==
        ReaderOps(openFails, NetKey)
        + (if net then ReaderOps(openFails, TokenKey) else [])
        + (if net && token then ReaderOps(openFails, MqttKey) else [])
        + (if net && token && mqtt then ReaderOps(openFails, MiscKey) else [])
  {
    MandatoryLoaded(openFails, contents);
    MandatoryReadersOps(openFails, contents);
  }

  // ---------------------------------------------------------------------
  // Properties of the whole of `nvram_init`

  /**
   * The flash is erased at most once, and exactly when the first init
   * reports no free pages or a new version; the store is then empty, and
   * otherwise it is left as it was.
   */
  lemma EraseAtMostOnce(first: FlashInitResult, second: FlashInitResult, openFails: bool, contents: map<Key, Blob>)
    ensures Count(InitOps(first, second, openFails, contents), EraseCall) == if NeedsErase(first) then 1 else 0
    ensures NeedsErase(first) ==> AfterSetup(first, contents) == map[]
    ensures !NeedsErase(first) ==> AfterSetup(first, contents) == contents
    ensures !NeedsErase(first) ==> Count(InitOps(first, second, openFails, contents), InitCall(first)) == 1
  {
    var keys := Attempted(openFails, AfterSetup(first, contents), MANDATORY);
    var setup, beacon, readers := SetupOps(first, second), ReaderOps(openFails, BeaconKey), ReadersOps(openFails, keys);
    ReadersDoNotFormat(openFails, keys, first);
    SetupOpsFacts(first, second);
    ReaderOpsFacts(openFails, BeaconKey, first);
    CountAppend(setup + beacon, readers, EraseCall);
    CountAppend(setup, beacon, EraseCall);
    CountAppend(setup + beacon, readers, InitCall(first));
    CountAppend(setup, beacon, InitCall(first));
  }

  /**
   * The flash is initialised once, or twice when it was erased: the inits
   * `nvram_init` makes report `first`, then `second` after an erase, and no
   * reader initialises it again.
   */
  lemma InitFlashResults(first: FlashInitResult, second: FlashInitResult, openFails: bool, contents: map<Key, Blob>)
    ensures InitResults(InitOps(first, second, openFails, contents)) ==
      if NeedsErase(first) then [first, second] else [first]
  {
    var keys := Attempted(openFails, AfterSetup(first, contents), MANDATORY);
    var setup, beacon, readers := SetupOps(first, second), ReaderOps(openFails, BeaconKey), ReadersOps(openFails, keys);
    forall r ensures Count(beacon, InitCall(r)) == 0 && Count(readers, InitCall(r)) == 0 {
      ReaderOpsFacts(openFails, BeaconKey, r);
      ReadersDoNotFormat(openFails, keys, r);
    }
    NoInitNoResults(beacon);
    NoInitNoResults(readers);
    assert InitOps(first, second, openFails, contents) == setup + beacon + readers;
    InitResultsAppend(setup + beacon, readers);
    InitResultsAppend(setup, beacon);
    if NeedsErase(first) {
      assert setup[1..] == [EraseCall, InitCall(second)];
      assert setup[1..][1..] == [InitCall(second)];
      assert setup[1..][1..][1..] == [];
      assert InitResults(setup[1..][1..]) == [second];
      assert InitResults(setup[1..]) == [second];
      assert InitResults(setup) == [first, second];
    } else {
      assert setup[1..] == [];
    }
  }

  /**
   * A device that reports provisioning done after `nvram_init` needs no
   * provisioning: its misc record was loaded, so all four mandatory records were.
   */
  lemma ProvDoneMeansProvisioned(openFails: bool, contents: map<Key, Blob>)
    requires Typed(contents)
    ensures var misc := if Loaded(openFails, contents, MiscKey) then contents[MiscKey].misc else ZERO_MISC;
      misc.provDone ==> !ProvisioningRequired(openFails, contents)
  {
    MandatoryCases(openFails, contents);
  }

  /**
   * The keys `nvram_init` fetches: beacon first, then the mandatory keys in
   * order up to the first failure; nothing when the namespace does not open.
   */
  lemma InitGetKeys(first: FlashInitResult, second: FlashInitResult, openFails: bool, contents: map<Key, Blob>)
    ensures GetKeys(InitOps(first, second, openFails, contents)) ==
      if openFails then [] else [BeaconKey] + Attempted(openFails, AfterSetup(first, contents), MANDATORY)
  {
    var keys := Attempted(openFails, AfterSetup(first, contents), MANDATORY);
    var setup, beacon, readers := SetupOps(first, second), ReaderOps(openFails, BeaconKey), ReadersOps(openFails, keys);
    ReadersGetKeys(openFails, keys);
    SetupOpsFacts(first, second);
    ReaderOpsFacts(openFails, BeaconKey, first);
    assert InitOps(first, second, openFails, contents) == setup + beacon + readers;
    GetKeysAppend(setup + beacon, readers);
    GetKeysAppend(setup, beacon);
    if openFails {
      assert GetKeys(setup + beacon) == [];
    } else {
      assert GetKeys(setup + beacon) == [BeaconKey];
    }
  }

  /** Every handle `nvram_init` opens is used for one get and closed straight after. */
  lemma InitBracketed(first: FlashInitResult, second: FlashInitResult, openFails: bool, contents: map<Key, Blob>)
    ensures Bracketed(InitOps(first, second, openFails, contents))
  {
    var keys := Attempted(openFails, AfterSetup(first, contents), MANDATORY);
    var setup, beacon, readers := SetupOps(first, second), ReaderOps(openFails, BeaconKey), ReadersOps(openFails, keys);
    ReadersBracketed(openFails, keys);
    SetupOpsFacts(first, second);
    ReaderOpsFacts(openFails, BeaconKey, first);
    BracketedAppend(setup, beacon);
    BracketedAppend(setup + beacon, readers);
  }

  /**
   * After an erase (or on a first boot with an empty store) provisioning is
   * required, the beacon is disabled and, when the namespace opens, only the
   * beacon and net keys are fetched.
   */
  lemma EmptyStoreOutcome(first: FlashInitResult, second: FlashInitResult, openFails: bool, contents: map<Key, Blob>)
    requires NeedsErase(first) || contents == map[]
    ensures ProvisioningRequired(openFails, AfterSetup(first, contents))
    ensures !BeaconAfter(openFails, AfterSetup(first, contents)).enable
    ensures forall k :: k in MANDATORY ==> !Loaded(openFails, AfterSetup(first, contents), k)
    ensures GetKeys(InitOps(first, second, openFails, contents)) == if openFails then [] else [BeaconKey, NetKey]
  {
    var store := AfterSetup(first, contents);
    assert store == map[];
    MandatoryCases(openFails, store);
    InitGetKeys(first, second, openFails, contents);
    assert Attempted(openFails, store, MANDATORY) == [NetKey];
  }

  // ---------------------------------------------------------------------
  // The snapshot and the loader

  /**
   * The flash initialisation at the head of `nvram_init`: after "no free
   * pages" or "new version found" the flash is erased and initialised once
   * more, and the second result is not looked at.
   */
  method InitFlash(nvs: Nvs, first: FlashInitResult, second: FlashInitResult)
    requires nvs.Valid()
    modifies nvs`contents, nvs`trace
    ensures nvs.Valid()
    ensures nvs.contents == AfterSetup(first, old(nvs.contents))
    ensures nvs.trace == old(nvs.trace) + SetupOps(first, second)
  {
    var err := nvs.FlashInit(first);
    if err == NoFreePages || err == NewVersionFound {
      nvs.FlashErase();
      err := nvs.FlashInit(second);
    }
  }


  /** `nvdata`: one field per record, the fold entries and the device identity. */
  class NvData {
    var net: Net
    var token: Token
    var mqtt: Mqtt
    var misc: Misc
    var beacon: Beacon
    /** One fold entry (minutes) per sensor type. */
    const folds: array<byte>
    const deviceId: array<byte>
    const deviceIdStr: array<char>
    const serial: array<byte>
    const serialStr: array<char>

    ghost predicate Valid() {
      && deviceId.Length == DEVICE_ID_LEN
      && deviceIdStr.Length == DEVICE_ID_STR_LEN
      && serial.Length == SERIAL_LEN
      && serialStr.Length == SERIAL_STR_LEN
      && deviceIdStr != serialStr
      && deviceId != serial && folds != deviceId && folds != serial
    }

    constructor (sensorTypes: nat)
      ensures Valid() && folds.Length == sensorTypes
      ensures fresh(folds) && fresh(deviceId) && fresh(deviceIdStr) && fresh(serial) && fresh(serialStr)
    {
      net, token, mqtt, misc, beacon := ZERO_NET, ZERO_TOKEN, ZERO_MQTT, ZERO_MISC, ZERO_BEACON;
      folds := new byte[sensorTypes];
      deviceId := new byte[DEVICE_ID_LEN];
      deviceIdStr := new char[DEVICE_ID_STR_LEN];
      serial := new byte[SERIAL_LEN];
      serialStr := new char[SERIAL_STR_LEN];
    }

    /** `nvram_get_prov_done`: a read of the misc record's flag. */
    function ProvDone(): (done: bool)
      reads this
      ensures done <==> misc.provDone
    {
      misc.provDone
    }

    /**
     * `nvram_read_ids`: the hardware identifier `mac`, its hex text, the
     * serial `hash(mac)` and its hex text; both renderings fit their buffers.
     */
    method ReadIds(mac: seq<byte>, hash: seq<byte> -> Digest) returns (ok: bool)
      requires Valid() && |mac| == DEVICE_ID_LEN
      modifies deviceId, deviceIdStr, serial, serialStr
      ensures ok
      ensures deviceId[..] == mac
      ensures deviceIdStr[..] == HexOf(mac) + ['\0']
      ensures serial[..] == hash(mac)
      ensures serialStr[..] == HexOf(hash(mac)) + ['\0']
    {
      forall i | 0 <= i < DEVICE_ID_LEN {
        deviceId[i] := mac[i];
      }
      assert deviceId[..] == mac;
      var idLen := Bin2Hex(deviceId[..], deviceIdStr, DEVICE_ID_STR_LEN);
      var digest := hash(deviceId[..]);
      forall i | 0 <= i < SERIAL_LEN {
        serial[i] := digest[i];
      }
      var serialLen := Bin2Hex(digest, serialStr, SERIAL_STR_LEN);
      assert deviceIdStr[..] == deviceIdStr[..idLen] + [deviceIdStr[idLen]];
      assert serialStr[..] == serialStr[..serialLen] + [serialStr[serialLen]];
      ok := true;
    }

    /** `nvram_read_net`. */
    method ReadNet(nvs: Nvs) returns (ok: bool)
      requires nvs.Valid() && !nvs.handleOpen
      modifies this`net, nvs`handleOpen, nvs`trace
      ensures ok == ReadOk(nvs.openFails, nvs.contents, NetKey)
      ensures net == if ok then nvs.contents[NetKey].net else old(net)
      ensures nvs.trace == old(nvs.trace) + ReaderOps(nvs.openFails, NetKey)
      ensures !nvs.handleOpen
    {
      var isOpen := nvs.Open();
      if !isOpen {
        return false;
      }
      var b := nvs.GetBlob(NetKey);
      nvs.Close();
      if b.None? {
        return false;
      }
      net := b.value.net;
      return true;
    }

    /** `nvram_read_token`. */
    method ReadToken(nvs: Nvs) returns (ok: bool)
      requires nvs.Valid() && !nvs.handleOpen
      modifies this`token, nvs`handleOpen, nvs`trace
      ensures ok == ReadOk(nvs.openFails, nvs.contents, TokenKey)
      ensures token == if ok then nvs.contents[TokenKey].token else old(token)
      ensures nvs.trace == old(nvs.trace) + ReaderOps(nvs.openFails, TokenKey)
      ensures !nvs.handleOpen
    {
      var isOpen := nvs.Open();
      if !isOpen {
        return false;
      }
      var b := nvs.GetBlob(TokenKey);
      nvs.Close();
      if b.None? {
        return false;
      }
      token := b.value.token;
      return true;
    }

    /** `nvram_read_mqtt`. */
    method ReadMqtt(nvs: Nvs) returns (ok: bool)
      requires nvs.Valid() && !nvs.handleOpen
      modifies this`mqtt, nvs`handleOpen, nvs`trace
      ensures ok == ReadOk(nvs.openFails, nvs.contents, MqttKey)
      ensures mqtt == if ok then nvs.contents[MqttKey].mqtt else old(mqtt)
      ensures nvs.trace == old(nvs.trace) + ReaderOps(nvs.openFails, MqttKey)
      ensures !nvs.handleOpen
    {
      var isOpen := nvs.Open();
      if !isOpen {
        return false;
      }
      var b := nvs.GetBlob(MqttKey);
      nvs.Close();
      if b.None? {
        return false;
      }
      mqtt := b.value.mqtt;
      return true;
    }

    /** `nvram_read_misc`. */
    method ReadMisc(nvs: Nvs) returns (ok: bool)
      requires nvs.Valid() && !nvs.handleOpen
      modifies this`misc, nvs`handleOpen, nvs`trace
      ensures ok == ReadOk(nvs.openFails, nvs.contents, MiscKey)
      ensures misc == if ok then nvs.contents[MiscKey].misc else old(misc)
      ensures nvs.trace == old(nvs.trace) + ReaderOps(nvs.openFails, MiscKey)
      ensures !nvs.handleOpen
    {
      var isOpen := nvs.Open();
      if !isOpen {
        return false;
      }
      var b := nvs.GetBlob(MiscKey);
      nvs.Close();
      if b.None? {
        return false;
      }
      misc := b.value.misc;
      return true;
    }

    /** `nvram_read_fold`: on a failed get every entry becomes 10. */
    method ReadFold(nvs: Nvs) returns (ok: bool)
      requires nvs.Valid() && !nvs.handleOpen && nvs.foldCount == folds.Length
      modifies folds, nvs`handleOpen, nvs`trace
      ensures ok == ReadOk(nvs.openFails, nvs.contents, FoldsKey)
      ensures folds[..] ==
        if ok then nvs.contents[FoldsKey].folds
        else if nvs.openFails then old(folds[..])
        else seq(folds.Length, _ => 10)
      ensures nvs.trace == old(nvs.trace) + ReaderOps(nvs.openFails, FoldsKey)
      ensures !nvs.handleOpen
    {
      var isOpen := nvs.Open();
      if !isOpen {
        return false;
      }
      var b := nvs.GetBlob(FoldsKey);
      nvs.Close();
      if b.None? {
        // The default fold.
        for i := 0 to folds.Length
          modifies folds
          invariant forall j :: 0 <= j < i ==> folds[j] == 10
        {
          folds[i] := 10;
        }
        return false;
      }
      var stored := b.value.folds;
      forall i | 0 <= i < folds.Length {
        folds[i] := stored[i];
      }
      return true;
    }

    /** `nvram_read_beacon`: a failed get disables the beacon and still succeeds. */
    method ReadBeacon(nvs: Nvs) returns (ok: bool)
      requires nvs.Valid() && !nvs.handleOpen
      modifies this`beacon, nvs`handleOpen, nvs`trace
      ensures ok == !nvs.openFails
      ensures beacon ==
        if nvs.openFails then old(beacon)
        else if BeaconKey in nvs.contents then nvs.contents[BeaconKey].beacon
        else old(beacon).(enable := false)
      ensures nvs.trace == old(nvs.trace) + ReaderOps(nvs.openFails, BeaconKey)
      ensures !nvs.handleOpen
    {
      var isOpen := nvs.Open();
      if !isOpen {
        return false;
      }
      var b := nvs.GetBlob(BeaconKey);
      nvs.Close();
      if b.None? {
        beacon := beacon.(enable := false);
      } else {
        beacon := b.value.beacon;
      }
      return true;
    }

    /**
     * The condition of `nvram_init`'s final `if`: the net, token, mqtt and
     * misc readers joined by a short-circuit `||` of their negations, so the
     * first failure stops the rest. The result is true when all four read.
     */
    method ReadMandatory(nvs: Nvs) returns (ok: bool)
      requires nvs.Valid() && !nvs.handleOpen
      modifies this`net, this`token, this`mqtt, this`misc, nvs`handleOpen, nvs`trace
      ensures !nvs.handleOpen
      ensures ok == !ProvisioningRequired(nvs.openFails, nvs.contents)
      ensures nvs.trace == old(nvs.trace) + ReadersOps(nvs.openFails, Attempted(nvs.openFails, nvs.contents, MANDATORY))
      ensures net == if Loaded(nvs.openFails, nvs.contents, NetKey) then nvs.contents[NetKey].net else old(net)
      ensures token == if Loaded(nvs.openFails, nvs.contents, TokenKey) then nvs.contents[TokenKey].token else old(token)
      ensures mqtt == if Loaded(nvs.openFails, nvs.contents, MqttKey) then nvs.contents[MqttKey].mqtt else old(mqtt)
      ensures misc == if Loaded(nvs.openFails, nvs.contents, MiscKey) then nvs.contents[MiscKey].misc else old(misc)
    {
      MandatoryCases(nvs.openFails, nvs.contents);
      ok := ReadNet(nvs);
      if ok {
        ok := ReadToken(nvs);
        if ok {
          ok := ReadMqtt(nvs);
          if ok {
            ok := ReadMisc(nvs);
          }
        }
      }
    }

    /** `memset(&nvdata, 0, sizeof(nvdata))`: every record and buffer is zero. */
    method Clear()
      requires Valid()
      modifies this, folds, deviceId, deviceIdStr, serial, serialStr
      ensures net == ZERO_NET && token == ZERO_TOKEN && mqtt == ZERO_MQTT
      ensures misc == ZERO_MISC && beacon == ZERO_BEACON
      ensures folds[..] == Zeros(folds.Length)
      ensures deviceId[..] == Zeros(deviceId.Length) && serial[..] == Zeros(serial.Length)
      ensures deviceIdStr[..] == seq(deviceIdStr.Length, _ => '\0')
      ensures serialStr[..] == seq(serialStr.Length, _ => '\0')
    {
      net, token, mqtt, misc, beacon := ZERO_NET, ZERO_TOKEN, ZERO_MQTT, ZERO_MISC, ZERO_BEACON;
      forall i | 0 <= i < folds.Length {
        folds[i] := 0;
      }
      forall i | 0 <= i < deviceId.Length {
        deviceId[i] := 0;
      }
      forall i | 0 <= i < deviceIdStr.Length {
        deviceIdStr[i] := '\0';
      }
      forall i | 0 <= i < serial.Length {
        serial[i] := 0;
      }
      forall i | 0 <= i < serialStr.Length {
        serialStr[i] := '\0';
      }
    }

    /**
     * `nvram_init`. `first` and `second` are what the two flash inits report,
     * `mac` the hardware identifier and `hash` the 128-bit hash; the result
     * is whether "Provisioning Required" is reported.
     */
    method Init(nvs: Nvs, mac: seq<byte>, hash: seq<byte> -> Digest, first: FlashInitResult, second: FlashInitResult)
      returns (provisioningRequired: bool)
      requires Valid() && nvs.Valid() && !nvs.handleOpen && |mac| == DEVICE_ID_LEN
      modifies this, folds, deviceId, deviceIdStr, serial, serialStr, nvs
      ensures Valid() && nvs.Valid() && !nvs.handleOpen
      ensures nvs.contents == AfterSetup(first, old(nvs.contents))
      ensures nvs.trace == old(nvs.trace) + InitOps(first, second, nvs.openFails, old(nvs.contents))
      ensures provisioningRequired == ProvisioningRequired(nvs.openFails, nvs.contents)
      ensures net == if Loaded(nvs.openFails, nvs.contents, NetKey) then nvs.contents[NetKey].net else ZERO_NET
      ensures token == if Loaded(nvs.openFails, nvs.contents, TokenKey) then nvs.contents[TokenKey].token else ZERO_TOKEN
      ensures mqtt == if Loaded(nvs.openFails, nvs.contents, MqttKey) then nvs.contents[MqttKey].mqtt else ZERO_MQTT
      ensures misc == if Loaded(nvs.openFails, nvs.contents, MiscKey) then nvs.contents[MiscKey].misc else ZERO_MISC
      ensures beacon == BeaconAfter(nvs.openFails, nvs.contents)
      ensures !Loaded(nvs.openFails, nvs.contents, NetKey) ==> ProtoOf(net.proto) == DHCP
      ensures !Loaded(nvs.openFails, nvs.contents, MiscKey) ==> !ProvDone()
      ensures ProvDone() ==> !provisioningRequired
      ensures folds[..] == Zeros(folds.Length)
      ensures deviceId[..] == mac && deviceIdStr[..] == HexOf(mac) + ['\0']
      ensures serial[..] == hash(mac) && serialStr[..] == HexOf(hash(mac)) + ['\0']
    {
      Clear();
      InitFlash(nvs, first, second);
      ghost var setupTrace := nvs.trace;

      var idsOk := ReadIds(mac, hash);
      var beaconOk := ReadBeacon(nvs);

      ghost var beaconTrace := nvs.trace;
      var ok := ReadMandatory(nvs);
      provisioningRequired := !ok;
      assert beaconTrace == setupTrace + ReaderOps(nvs.openFails, BeaconKey);
      ghost var readers := ReadersOps(nvs.openFails, Attempted(nvs.openFails, nvs.contents, MANDATORY));
      assert nvs.trace == beaconTrace + readers;
      assert InitOps(first, second, nvs.openFails, old(nvs.contents)) ==
        SetupOps(first, second) + ReaderOps(nvs.openFails, BeaconKey) + readers;
      ProvDoneMeansProvisioned(nvs.openFails, nvs.contents);
    }
  }
}
