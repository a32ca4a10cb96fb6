/** One byte-keyed database holding an offer table, a swap table and six kinds of recovery records.
    Keys are byte strings, written as strings of one-byte characters; values are opaque. */
module StoreModel {
  import opened Wrappers

  type Hash = h: string | |h| == 32 witness seq(32, _ => '0')
  type Value = seq<char>

  datatype Kind = RelayerInfo | ContractSwapInfo | SwapPrivateKey | CounterpartyPrivateKey | CounterpartyKeys | NewSwapTxHash

  const KINDS := [RelayerInfo, ContractSwapInfo, SwapPrivateKey, CounterpartyPrivateKey, CounterpartyKeys, NewSwapTxHash]

  function Suffix(k: Kind): (s: string) {
    match k
    case RelayerInfo => "relayer"
    case ContractSwapInfo => "ethinfo"
    case SwapPrivateKey => "privkey"
    case CounterpartyPrivateKey => "cspriv"
    case CounterpartyKeys => "cskeys"
    case NewSwapTxHash => "newswap"
  }

  /** `chaindb.NewTable` prepends the table's prefix; `getRecoveryDBKey` appends the record's kind. */
  function OfferKey(id: Hash): (k: string) {
    "offer" + id
  }

  function SwapKey(id: Hash): (k: string) {
    "swap" + id
  }

  function RecoveryKey(id: Hash, kind: Kind): (k: string) {
    "recv" + (id + Suffix(kind))
  }

  lemma SuffixInjective(a: Kind, b: Kind)
    requires Suffix(a) == Suffix(b)
    ensures a == b
  {
    var s := Suffix(a);
    assert |"relayer"| == 7 && "relayer"[0] == 'r' && "ethinfo"[0] == 'e' && "privkey"[0] == 'p' && "newswap"[0] == 'n';
    assert |"cspriv"| == 6 && "cspriv"[2] == 'p' && "cskeys"[2] == 'k' && "cspriv"[0] == 'c' && "cskeys"[0] == 'c';
  }

  lemma OfferKeyInjective(a: Hash, b: Hash)
    requires OfferKey(a) == OfferKey(b)
    ensures a == b
  {
    assert OfferKey(a)[5..] == a && OfferKey(b)[5..] == b;
  }

  lemma SwapKeyInjective(a: Hash, b: Hash)
    requires SwapKey(a) == SwapKey(b)
    ensures a == b
  {
    assert SwapKey(a)[4..] == a && SwapKey(b)[4..] == b;
  }

  lemma RecoveryKeyInjective(a: Hash, x: Kind, b: Hash, y: Kind)
    requires RecoveryKey(a, x) == RecoveryKey(b, y)
    ensures a == b && x == y
  {
    assert RecoveryKey(a, x)[4..36] == a && RecoveryKey(b, y)[4..36] == b;
    assert RecoveryKey(a, x)[36..] == Suffix(x) && RecoveryKey(b, y)[36..] == Suffix(y);
    SuffixInjective(x, y);
  }

  /** Where a record lives: the abstract address and its byte key. */
  datatype Record = OfferRecord(id: Hash) | SwapRecord(id: Hash) | RecoveryRecord(id: Hash, kind: Kind)

  function Key(r: Record): (k: string) {
    match r
    case OfferRecord(id) => OfferKey(id)
    case SwapRecord(id) => SwapKey(id)
    case RecoveryRecord(id, kind) => RecoveryKey(id, kind)
  }

  /** The three table prefixes already differ in their first byte. */
  lemma FirstByte(r: Record)
    ensures |Key(r)| > 0
    ensures Key(r)[0] == match r case OfferRecord(_) => 'o' case SwapRecord(_) => 's' case RecoveryRecord(_, _) => 'r'
  {
  }

  /** No key of one table, record kind or swap ID is ever the key of another. */
  lemma KeyInjective(r: Record, q: Record)
    requires Key(r) == Key(q)
    ensures r == q
  {
    hide OfferKey, SwapKey, RecoveryKey;
    FirstByte(r);
    FirstByte(q);
    if r.OfferRecord? {
      OfferKeyInjective(r.id, q.id);
    } else if r.SwapRecord? {
      SwapKeyInjective(r.id, q.id);
    } else {
      RecoveryKeyInjective(r.id, r.kind, q.id, q.kind);
    }
  }

  // ---- the abstract store: separate tables ----

  /** Three independent tables, the third indexed by swap and record kind. */
  datatype Tables = Tables(offers: map<Hash, Value>, swaps: map<Hash, Value>, recovery: map<(Hash, Kind), Value>)

  function Lookup(t: Tables, r: Record): (v: Option<Value>) {
    match r
    case OfferRecord(id) => if id in t.offers then Some(t.offers[id]) else None
    case SwapRecord(id) => if id in t.swaps then Some(t.swaps[id]) else None
    case RecoveryRecord(id, kind) => if (id, kind) in t.recovery then Some(t.recovery[(id, kind)]) else None
  }

  function DeleteRecovery(m: map<(Hash, Kind), Value>, id: Hash): (n: map<(Hash, Kind), Value>) {
    map p | p in m && p.0 != id :: m[p]
  }

  datatype Op =
    | PutOffer(id: Hash, value: Value)
    | DeleteOffer(id: Hash)
    | PurgeInvalidOffer(id: Hash)
    | PutSwap(id: Hash, value: Value)
    | PutRecovery(id: Hash, kind: Kind, value: Value)
    | DeleteSwapRecords(id: Hash)

  /** What each operation means for the separate tables. */
  function Apply(t: Tables, op: Op): (u: Tables) {
    match op
    case PutOffer(id, v) => t.(offers := t.offers[id := v])
    case DeleteOffer(id) => t.(offers := t.offers - {id})
    case PurgeInvalidOffer(id) => t.(offers := t.offers - {id}, swaps := t.swaps - {id})
    case PutSwap(id, v) => t.(swaps := t.swaps[id := v])
    case PutRecovery(id, kind, v) => t.(recovery := t.recovery[(id, kind) := v])
    case DeleteSwapRecords(id) => t.(recovery := DeleteRecovery(t.recovery, id))
  }

  function Get(db: map<string, Value>, r: Record): (v: Option<Value>) {
    if Key(r) in db then Some(db[Key(r)]) else None
  }

  /** The byte-keyed database holds the records of the tables, under their keys, and nothing else. */
  ghost predicate Represents(db: map<string, Value>, t: Tables) {
    && (forall r :: Get(db, r) == Lookup(t, r))
    && (forall k :: k in db ==> exists r :: k == Key(r))
  }
}

module RecoveryStore {
  import opened Wrappers
  import opened StoreModel

  /** The single database behind all tables; `tables` is what it stands for. */
  class Database {
    var db: map<string, Value>
    ghost var tables: Tables

    ghost predicate Valid()
      reads this
    {
      Represents(db, tables)
    }

    constructor ()
      ensures Valid() && tables == Tables(map[], map[], map[])
    {
      db := map[];
      tables := Tables(map[], map[], map[]);
    }

    method PutOffer(id: Hash, value: Value)
      requires Valid()
      modifies this
      ensures Valid() && tables == Apply(old(tables), StoreModel.PutOffer(id, value))
    {
      hide Represents, Apply;
      db := db[OfferKey(id) := value];
      Done(StoreModel.PutOffer(id, value), old(db));
    }

    method DeleteOffer(id: Hash)
      requires Valid()
      modifies this
      ensures Valid() && tables == Apply(old(tables), StoreModel.DeleteOffer(id))
    {
      hide Represents, Apply;
      db := db - {OfferKey(id)};
      Done(StoreModel.DeleteOffer(id), old(db));
    }

    /** Removes the offer, then the swap entry of the same ID if there is one. */
    method PurgeInvalidOffer(id: Hash)
      requires Valid()
      modifies this
      ensures Valid() && tables == Apply(old(tables), StoreModel.PurgeInvalidOffer(id))
    {
      hide Represents, Apply;
      db := db - {OfferKey(id)};
      if SwapKey(id) in db {
        db := db - {SwapKey(id)};
      }
      assert db == old(db) - {OfferKey(id), SwapKey(id)};
      Done(StoreModel.PurgeInvalidOffer(id), old(db));
    }

    method PutSwap(id: Hash, value: Value)
      requires Valid()
      modifies this
      ensures Valid() && tables == Apply(old(tables), StoreModel.PutSwap(id, value))
    {
      hide Represents, Apply;
      db := db[SwapKey(id) := value];
      Done(StoreModel.PutSwap(id, value), old(db));
    }

    method PutRecovery(id: Hash, kind: Kind, value: Value)
      requires Valid()
      modifies this
      ensures Valid() && tables == Apply(old(tables), StoreModel.PutRecovery(id, kind, value))
    {
      hide Represents, Apply;
      db := db[RecoveryKey(id, kind) := value];
      Done(StoreModel.PutRecovery(id, kind, value), old(db));
    }

    /** `deleteSwap`: one delete per recovery key. */
    method DeleteSwap(id: Hash)
      requires Valid()
      modifies this
      ensures Valid() && tables == Apply(old(tables), DeleteSwapRecords(id))
    {
      hide RecoveryKey, Represents, Apply;
      for i := 0 to |KINDS|
        invariant db == old(db) - (set j | 0 <= j < i :: RecoveryKey(id, KINDS[j])) && tables == old(tables)
      {
        ghost var done := set j | 0 <= j < i :: RecoveryKey(id, KINDS[j]);
        var key := RecoveryKey(id, KINDS[i]);
        db := db - {key};
        assert (set j | 0 <= j < i + 1 :: RecoveryKey(id, KINDS[j])) == done + {key};
      }
      AllKeysListed(id);
      Done(DeleteSwapRecords(id), old(db));
    }

    /** Records that the bytes have been changed as the operation says. */
    ghost method Done(op: Op, before: map<string, Value>)
      requires Represents(before, tables) && db == OnBytes(before, op)
      modifies this`tables
      ensures Valid() && tables == Apply(old(tables), op)
    {
      hide Represents, OnBytes, Apply;
      Refines(before, tables, op);
      tables := Apply(tables, op);
    }

    /** Every read answers as the separate tables would. */
    method Read(r: Record) returns (v: Option<Value>)
      requires Valid()
      ensures v == Lookup(tables, r)
    {
      v := if Key(r) in db then Some(db[Key(r)]) else None;
      assert v == Get(db, r);
    }
  }

  /** Every kind is in the list of keys to delete. */
  ghost function Index(kind: Kind): (j: nat)
    ensures j < |KINDS| && KINDS[j] == kind
  {
    match kind
    case RelayerInfo => 0
    case ContractSwapInfo => 1
    case SwapPrivateKey => 2
    case CounterpartyPrivateKey => 3
    case CounterpartyKeys => 4
    case NewSwapTxHash => 5
  }

  lemma AllKeysListed(id: Hash)
    ensures (set j | 0 <= j < |KINDS| :: RecoveryKey(id, KINDS[j])) == RecoveryKeys(id)
  {
    hide RecoveryKey;
    forall k | k in RecoveryKeys(id) ensures k in (set j | 0 <= j < |KINDS| :: RecoveryKey(id, KINDS[j])) {
      var kind: Kind :| k == RecoveryKey(id, kind);
      assert k == RecoveryKey(id, KINDS[Index(kind)]);
    }
  }

  ghost function RecoveryKeys(id: Hash): (ks: set<string>) {
    set kind: Kind :: RecoveryKey(id, kind)
  }

  /** What each operation does to the byte keys. */
  ghost function OnBytes(db: map<string, Value>, op: Op): (e: map<string, Value>) {
    match op
    case PutOffer(id, v) => db[OfferKey(id) := v]
    case DeleteOffer(id) => db - {OfferKey(id)}
    case PurgeInvalidOffer(id) => db - {OfferKey(id), SwapKey(id)}
    case PutSwap(id, v) => db[SwapKey(id) := v]
    case PutRecovery(id, kind, v) => db[RecoveryKey(id, kind) := v]
    case DeleteSwapRecords(id) => db - RecoveryKeys(id)
  }

  /** Every operation on the byte keys does to the tables what it should, and touches no other record. */
  lemma Refines(db: map<string, Value>, t: Tables, op: Op)
    requires Represents(db, t)
    ensures Represents(OnBytes(db, op), Apply(t, op))
  {
    hide OfferKey, SwapKey, RecoveryKey;
    var e, u := OnBytes(db, op), Apply(t, op);
    forall r ensures Get(e, r) == Lookup(u, r) {
      assert Get(db, r) == Lookup(t, r);
      match op
      case PutOffer(id, _) => Apart(r, OfferRecord(id));
      case DeleteOffer(id) => Apart(r, OfferRecord(id));
      case PurgeInvalidOffer(id) => { Apart(r, OfferRecord(id)); Apart(r, SwapRecord(id)); }
      case PutSwap(id, _) => Apart(r, SwapRecord(id));
      case PutRecovery(id, kind, _) => Apart(r, RecoveryRecord(id, kind));
      case DeleteSwapRecords(id) => InRecoveryKeys(r, id);
    }
    forall k | k in e ensures exists r :: k == Key(r) {
      if k in db {
      } else {
        match op
        case PutOffer(id, _) => assert k == Key(OfferRecord(id));
        case PutSwap(id, _) => assert k == Key(SwapRecord(id));
        case PutRecovery(id, kind, _) => assert k == Key(RecoveryRecord(id, kind));
        case _ =>
      }
    }
  }

  lemma Apart(r: Record, q: Record)
    ensures Key(r) == Key(q) <==> r == q
  {
    hide Key;
    if Key(r) == Key(q) { KeyInjective(r, q); }
  }

  /** The six keys removed for a swap are exactly the keys of its recovery records. */
  lemma InRecoveryKeys(r: Record, id: Hash)
    ensures Key(r) in RecoveryKeys(id) <==> r.RecoveryRecord? && r.id == id
  {
    hide OfferKey, SwapKey, RecoveryKey;
    if Key(r) in RecoveryKeys(id) {
      var kind: Kind :| Key(r) == RecoveryKey(id, kind);
      Apart(r, RecoveryRecord(id, kind));
    }
  }

  ghost function RunBytes(ops: seq<Op>): (db: map<string, Value>) {
    if ops == [] then map[] else OnBytes(RunBytes(ops[..|ops| - 1]), ops[|ops| - 1])
  }

  ghost function RunTables(ops: seq<Op>): (t: Tables) {
    if ops == [] then Tables(map[], map[], map[]) else Apply(RunTables(ops[..|ops| - 1]), ops[|ops| - 1])
  }

  /** After any sequence of operations, every read of the one database answers as the separate tables
      would, and the database holds nothing else. */
  lemma {:induction false} RunRefines(ops: seq<Op>)
    ensures Represents(RunBytes(ops), RunTables(ops))
  {
    hide OnBytes, Apply;
    if ops != [] {
      RunRefines(ops[..|ops| - 1]);
      Refines(RunBytes(ops[..|ops| - 1]), RunTables(ops[..|ops| - 1]), ops[|ops| - 1]);
    }
  }

  /** Deleting a swap's records removes exactly its six and leaves every other read unchanged. */
  lemma DeleteSwapRemovesSix(ops: seq<Op>, id: Hash, r: Record)
    ensures var before, after := RunBytes(ops), RunBytes(ops + [DeleteSwapRecords(id)]);
            Get(after, r) == if r.RecoveryRecord? && r.id == id then None else Get(before, r)
  {
    hide RecoveryKeys;
    assert (ops + [DeleteSwapRecords(id)])[..|ops|] == ops;
    InRecoveryKeys(r, id);
  }

  /** What an operation leaves at a record, if it touches it. */
  function Effect(op: Op, r: Record): (v: Option<Option<Value>>) {
    match op
    case PutOffer(id, value) => if r == OfferRecord(id) then Some(Some(value)) else None
    case DeleteOffer(id) => if r == OfferRecord(id) then Some(None) else None
    case PurgeInvalidOffer(id) => if r == OfferRecord(id) || r == SwapRecord(id) then Some(None) else None
    case PutSwap(id, value) => if r == SwapRecord(id) then Some(Some(value)) else None
    case PutRecovery(id, kind, value) => if r == RecoveryRecord(id, kind) then Some(Some(value)) else None
    case DeleteSwapRecords(id) => if r.RecoveryRecord? && r.id == id then Some(None) else None
  }

  /** What the last operation to touch a record left there. */
  function Last(ops: seq<Op>, r: Record): (v: Option<Value>) {
    if ops == [] then None
    else match Effect(ops[|ops| - 1], r)
      case Some(v) => v
      case None => Last(ops[..|ops| - 1], r)
  }

  /** Every read of the one database, after any sequence of operations, returns what was last put there and not deleted
      since: the value under its own kind and identifier, whatever was done to others. */
  lemma {:induction false} ReadsLast(ops: seq<Op>, r: Record)
    ensures Get(RunBytes(ops), r) == Last(ops, r)
  {
    hide OfferKey, SwapKey, RecoveryKey, Represents;
    RunRefines(ops);
    assert Get(RunBytes(ops), r) == Lookup(RunTables(ops), r) by { Represented(RunBytes(ops), RunTables(ops), r); }
    TablesLast(ops, r);
  }

  lemma Represented(db: map<string, Value>, t: Tables, r: Record)
    requires Represents(db, t)
    ensures Get(db, r) == Lookup(t, r)
  {
  }

  lemma {:induction false} TablesLast(ops: seq<Op>, r: Record)
    ensures Lookup(RunTables(ops), r) == Last(ops, r)
  {
    hide Apply, Effect;
    if ops != [] {
      TablesLast(ops[..|ops| - 1], r);
      OneEffect(RunTables(ops[..|ops| - 1]), ops[|ops| - 1], r);
    }
  }

  lemma OneEffect(t: Tables, op: Op, r: Record)
    ensures Lookup(Apply(t, op), r) == match Effect(op, r) case Some(v) => v case None => Lookup(t, r)
  {
  }
}
