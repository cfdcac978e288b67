/** The audit hash chain (decision_server.go). The payload hash and the digest are parameters. */
module Audit {
  import opened Decimals
  import opened Wrappers

  /** `payload` is `auditPayloadHash`, whose records are plain strings that always marshal; `digest` is SHA-256 in
      hex. */
  datatype Hashing<!R> = Hashing(payload: R -> string, digest: string -> string)

  datatype Envelope<R> = Envelope(
    id: string, sequence: int, timestamp: string, previousHash: string, payloadHash: string, chainHash: string,
    signature: string, record: R)

  // ---------- decimal numbers ----------

  lemma NumberStep(v: nat)
    ensures Number(v) == if v < 10 then [Digit(v)] else Number(v / 10) + [Digit(v % 10)]
    ensures |Number(v)| >= 2 <==> v >= 10
  {
  }

  lemma NumberFits(v: nat)
    requires v < 0x8000_0000_0000_0000
    ensures |Number(v)| <= 19
  {
    Pow10At19();
    DecimalLength(v, 19, Digit);
  }

  /** `strconvFormatInt`: fills a 20-byte buffer from the back. A negative number comes out empty. */
  method FormatInt(v0: int) returns (s: string)
    requires -0x8000_0000_0000_0000 <= v0 < 0x8000_0000_0000_0000
    ensures s == if v0 < 0 then "" else Number(v0)
  {
    hide Number;
    NumberStep(0);
    if v0 == 0 {
      return "0";
    }
    var v := v0;
    var buf := new char[20](_ => '0');
    var i := 20;
    if v0 > 0 {
      NumberFits(v0);
    }
    while v > 0
      invariant 0 <= i <= 20 && (v0 > 0 ==> v >= 0) && (v0 < 0 ==> v == v0 && i == 20)
      invariant v > 0 ==> Number(v) + buf[i..] == Number(v0) && |Number(v)| <= i
      invariant v == 0 ==> buf[i..] == Number(v0)
      decreases v
    {
      NumberStep(v);
      i := i - 1;
      buf[i] := Digit(v % 10);
      assert buf[i..] == [Digit(v % 10)] + buf[i + 1..];
      v := v / 10;
    }
    s := buf[i..];
  }

  lemma Pow10At19()
    ensures Pow10(19) == 10_000_000_000_000_000_000
  {
    assert Pow10(4) == 10_000 by { assert Pow10(2) == 100; }
    assert Pow10(8) == 100_000_000 by { assert Pow10(6) == 1_000_000; }
    assert Pow10(12) == 1_000_000_000_000 by { assert Pow10(10) == 10_000_000_000; }
    assert Pow10(16) == 10_000_000_000_000_000 by { assert Pow10(14) == 100_000_000_000_000; }
    assert Pow10(18) == 1_000_000_000_000_000_000;
  }

  // ---------- the hashed layout ----------

  /** What `auditChainHash` feeds to the digest. */
  function ChainInput(sequence: nat, timestamp: string, id: string, previousHash: string, payloadHash: string): string {
    Number(sequence) + "\n" + (timestamp + "\n" + (id + "\n" + (previousHash + "\n" + payloadHash)))
  }

  predicate OneLine(s: string) {
    '\n' !in s
  }

  lemma FieldUnambiguous(a: string, x: string, b: string, y: string)
    requires OneLine(a) && OneLine(b) && a + "\n" + x == b + "\n" + y
    ensures a == b && x == y
  {
    var s := a + "\n" + x;
    assert s[|a|] == '\n' && s[|b|] == '\n';
    assert forall k :: 0 <= k < |a| ==> s[k] == a[k] && a[k] in a;
    assert forall k :: 0 <= k < |b| ==> s[k] == b[k] && b[k] in b;
    assert |a| == |b|;
    assert a == s[..|a|] && b == s[..|b|];
    assert x == s[|a| + 1..] && y == s[|b| + 1..];
  }

  /** The newline-joined layout determines every field, as long as the middle three hold no newline. */
  lemma ChainInputInjective(s: nat, t: string, i: string, p: string, h: string, s': nat, t': string, i': string,
                            p': string, h': string)
    requires OneLine(t) && OneLine(i) && OneLine(p) && OneLine(t') && OneLine(i') && OneLine(p')
    requires ChainInput(s, t, i, p, h) == ChainInput(s', t', i', p', h')
    ensures s == s' && t == t' && i == i' && p == p' && h == h'
  {
    FieldUnambiguous(Number(s), t + "\n" + (i + "\n" + (p + "\n" + h)), Number(s'),
                     t' + "\n" + (i' + "\n" + (p' + "\n" + h')));
    NumberInjective(s, s');
    FieldUnambiguous(t, i + "\n" + (p + "\n" + h), t', i' + "\n" + (p' + "\n" + h'));
    FieldUnambiguous(i, p + "\n" + h, i', p' + "\n" + h');
    FieldUnambiguous(p, h, p', h');
  }

  /** With a newline in a field the layout is ambiguous: text can move from the timestamp to the id. */
  lemma ChainInputAmbiguous(s: nat, p: string, h: string)
    ensures ChainInput(s, "a\nb", "c", p, h) == ChainInput(s, "a", "b\nc", p, h)
  {
    var rest := p + "\n" + h;
    assert "a\nb" + "\n" + ("c" + "\n" + rest) == "a" + "\n" + ("b\nc" + "\n" + rest);
  }

  // ---------- verification ----------

  function ChainHash<R>(h: Hashing<R>, e: Envelope<R>): string
    requires e.sequence >= 0
  {
    h.digest(ChainInput(e.sequence, e.timestamp, e.id, e.previousHash, e.payloadHash))
  }

  /** The envelope is intact and follows a chain that ends in `previous`. */
  predicate Intact<R>(h: Hashing<R>, e: Envelope<R>, previous: string) {
    && e.sequence > 0
    && e.previousHash == previous
    && h.payload(e.record) == e.payloadHash
    && ChainHash(h, e) == e.chainHash
  }

  function LastHash<R>(chain: seq<Envelope<R>>): string {
    if chain == [] then "" else chain[|chain| - 1].chainHash
  }

  lemma LastHashMore<R>(chain: seq<Envelope<R>>, e: Envelope<R>)
    ensures LastHash(chain + [e]) == e.chainHash
  {
  }

  /** Every envelope is intact on top of the ones before it. */
  ghost predicate Linked<R>(h: Hashing<R>, chain: seq<Envelope<R>>) {
    forall k :: 0 <= k < |chain| ==> Intact(h, chain[k], LastHash(chain[..k]))
  }

  ghost predicate Contiguous<R>(chain: seq<Envelope<R>>) {
    forall j, k :: 0 <= j && j + 1 == k && k < |chain| ==> chain[k].sequence == chain[j].sequence + 1
  }

  ghost predicate Verifies<R>(h: Hashing<R>, chain: seq<Envelope<R>>) {
    Linked(h, chain) && Contiguous(chain)
  }

  /** Envelope `k` of an accepted chain, field by field: a positive number, one above the number before it; the hash
      before it; and the hashes of the record and of the five fields, one a line. */
  ghost predicate Accepted<R>(h: Hashing<R>, chain: seq<Envelope<R>>, k: nat)
    requires k < |chain|
  {
    var e := chain[k];
    && e.sequence > 0 && (k > 0 ==> e.sequence == chain[k - 1].sequence + 1)
    && e.previousHash == (if k == 0 then "" else chain[k - 1].chainHash)
    && e.payloadHash == h.payload(e.record)
    && e.chainHash == h.digest(Number(e.sequence) + "\n" + e.timestamp + "\n" + e.id + "\n" + e.previousHash + "\n"
                               + e.payloadHash)
  }

  lemma AcceptedExactly<R>(h: Hashing<R>, chain: seq<Envelope<R>>, k: nat)
    requires k < |chain|
    ensures Accepted(h, chain, k) <==>
            Intact(h, chain[k], LastHash(chain[..k])) && (k > 0 ==> chain[k].sequence == chain[k - 1].sequence + 1)
  {
    hide Number, ChainInput;
    var e := chain[k];
    assert k > 0 ==> chain[..k][k - 1] == chain[k - 1];
    if e.sequence > 0 {
      Layout(e.sequence, e.timestamp, e.id, e.previousHash, e.payloadHash);
    }
  }

  lemma ContiguousExactly<R>(chain: seq<Envelope<R>>)
    ensures Contiguous(chain) <==> forall k :: 0 < k < |chain| ==> chain[k].sequence == chain[k - 1].sequence + 1
  {
    if Contiguous(chain) {
      forall k | 0 < k < |chain|
        ensures chain[k].sequence == chain[k - 1].sequence + 1
      {
        assert k - 1 + 1 == k;
      }
    }
  }

  lemma VerifiesExactly<R>(h: Hashing<R>, chain: seq<Envelope<R>>)
    ensures Verifies(h, chain) <==> forall k :: 0 <= k < |chain| ==> Accepted(h, chain, k)
  {
    hide Accepted, Intact, Contiguous, LastHash;
    ContiguousExactly(chain);
    if forall k :: 0 <= k < |chain| ==> Accepted(h, chain, k) {
      forall k | 0 <= k < |chain|
        ensures Intact(h, chain[k], LastHash(chain[..k])) && (k > 0 ==> chain[k].sequence == chain[k - 1].sequence + 1)
      {
        AcceptedExactly(h, chain, k);
      }
    } else if Verifies(h, chain) {
      forall k | 0 <= k < |chain|
        ensures Accepted(h, chain, k)
      {
        AcceptedExactly(h, chain, k);
      }
    }
  }

  lemma Layout(s: nat, t: string, i: string, p: string, h: string)
    ensures ChainInput(s, t, i, p, h) == Number(s) + "\n" + t + "\n" + i + "\n" + p + "\n" + h
  {
    hide Number;
    var n := Number(s);
    assert n + "\n" + (t + "\n" + (i + "\n" + (p + "\n" + h))) == n + "\n" + t + "\n" + (i + "\n" + (p + "\n" + h));
    assert n + "\n" + t + "\n" + (i + "\n" + (p + "\n" + h)) == n + "\n" + t + "\n" + i + "\n" + (p + "\n" + h);
  }

  /** The checks of one iteration. In uint64 arithmetic the successor of the greatest number is zero, which is
      refused. */
  method VerifyEnvelope<R>(h: Hashing<R>, e: Envelope<R>, previous: string, sequence: int) returns (ok: bool)
    requires 0 <= e.sequence < UINT64 && 0 <= sequence < UINT64
    ensures ok <==> Intact(h, e, previous) && (sequence != 0 ==> e.sequence == sequence + 1)
    ensures ok ==> e.sequence > 0
  {
    if e.sequence == 0 {
      return false;
    }
    if sequence != 0 && e.sequence != (sequence + 1) % UINT64 {
      return false;
    }
    if e.previousHash != previous {
      return false;
    }
    var payloadHash := h.payload(e.record);
    if payloadHash != e.payloadHash {
      return false;
    }
    if ChainHash(h, e) != e.chainHash {
      return false;
    }
    ok := true;
  }

  /** `VerifyAuditChain`. */
  method VerifyAuditChain<R>(h: Hashing<R>, envelopes: seq<Envelope<R>>) returns (ok: bool)
    requires forall k :: 0 <= k < |envelopes| ==> 0 <= envelopes[k].sequence < UINT64
    ensures ok <==> Verifies(h, envelopes)
  {
    hide Intact;
    var previous := "";
    var sequence := 0;
    for i := 0 to |envelopes|
      invariant Verifies(h, envelopes[..i]) && previous == LastHash(envelopes[..i])
      invariant i == 0 ==> sequence == 0
      invariant i > 0 ==> sequence == envelopes[i - 1].sequence > 0
    {
      assert envelopes[..i + 1] == envelopes[..i] + [envelopes[i]];
      VerifiesTake(h, envelopes, i + 1);
      VerifiesStep(h, envelopes[..i], envelopes[i]);
      var good := VerifyEnvelope(h, envelopes[i], previous, sequence);
      if !good {
        return false;
      }
      previous := envelopes[i].chainHash;
      sequence := envelopes[i].sequence;
    }
    assert envelopes[..|envelopes|] == envelopes;
    ok := true;
  }

  const UINT64 := 0x1_0000_0000_0000_0000

  lemma VerifiesTake<R>(h: Hashing<R>, chain: seq<Envelope<R>>, n: nat)
    requires n <= |chain|
    ensures Verifies(h, chain) ==> Verifies(h, chain[..n])
  {
    assert forall k :: 0 <= k < n ==> chain[..n][..k] == chain[..k];
  }

  lemma LinkedStep<R>(h: Hashing<R>, chain: seq<Envelope<R>>, e: Envelope<R>)
    ensures Linked(h, chain + [e]) <==> Linked(h, chain) && Intact(h, e, LastHash(chain))
  {
    hide Intact, LastHash;
    var more := chain + [e];
    forall k | 0 <= k < |chain|
      ensures Intact(h, more[k], LastHash(more[..k])) <==> Intact(h, chain[k], LastHash(chain[..k]))
    {
      assert more[k] == chain[k] && more[..k] == chain[..k];
    }
    assert more[..|chain|] == chain && more[|chain|] == e;
    if Linked(h, more) {
      assert Intact(h, more[|chain|], LastHash(more[..|chain|]));
    }
  }

  lemma ContiguousStep<R>(chain: seq<Envelope<R>>, e: Envelope<R>)
    ensures Contiguous(chain + [e]) 
            <==> Contiguous(chain) && (chain != [] ==> e.sequence == chain[|chain| - 1].sequence + 1)
  {
    var more := chain + [e];
    assert more[|chain|] == e;
    forall k | 0 <= k < |chain| ensures more[k] == chain[k] {
    }
  }

  lemma VerifiesStep<R>(h: Hashing<R>, chain: seq<Envelope<R>>, e: Envelope<R>)
    ensures Verifies(h, chain + [e]) <==>
            && Verifies(h, chain)
            && Intact(h, e, LastHash(chain))
            && (chain != [] ==> e.sequence == chain[|chain| - 1].sequence + 1)
  {
    LinkedStep(h, chain, e);
    ContiguousStep(chain, e);
  }

  // ---------- tamper evidence ----------

  /** The idealised hash functions: injective, never empty, and a digest is one line. */
  ghost predicate Ideal<R(!new)>(h: Hashing<R>) {
    && (forall x, y :: h.digest(x) == h.digest(y) ==> x == y)
    && (forall x :: h.digest(x) != "" && OneLine(h.digest(x)))
    && (forall r, r' :: h.payload(r) == h.payload(r') ==> r == r')
  }

  ghost predicate OneLineFields<R>(chain: seq<Envelope<R>>) {
    forall k :: 0 <= k < |chain| ==> OneLine(chain[k].timestamp) && OneLine(chain[k].id)
  }

  ghost predicate SameButSignature<R>(a: Envelope<R>, b: Envelope<R>) {
    a.(signature := b.signature) == b
  }

  /** Two chains that verify and end in the same hash have the same length and agree on everything but the
      signatures. */
  lemma {:induction false} TamperEvident<R(!new)>(h: Hashing<R>, a: seq<Envelope<R>>, b: seq<Envelope<R>>)
    requires Ideal(h) && Verifies(h, a) && Verifies(h, b) && OneLineFields(a) && OneLineFields(b)
    requires LastHash(a) == LastHash(b)
    ensures |a| == |b|
    ensures forall k :: 0 <= k < |a| ==> SameButSignature(a[k], b[k])
    decreases |a|
  {
    hide Verifies, Ideal;
    LastHashEmpty(h, a);
    LastHashEmpty(h, b);
    if a != [] {
      var n, m := |a| - 1, |b| - 1;
      LastHashEmpty(h, a[..n]);
      SameLast(h, a, b);
      VerifiesTake(h, a, n);
      VerifiesTake(h, b, m);
      TamperEvident(h, a[..n], b[..m]);
      forall k | 0 <= k < n
        ensures SameButSignature(a[k], b[k])
      {
        assert a[k] == a[..n][k] && b[k] == b[..m][k];
      }
    }
  }

  /** The last envelopes hash the same text, so they agree field by field, previous hash included. */
  lemma SameLast<R(!new)>(h: Hashing<R>, a: seq<Envelope<R>>, b: seq<Envelope<R>>)
    requires Ideal(h) && Verifies(h, a) && Verifies(h, b) && OneLineFields(a) && OneLineFields(b)
    requires a != [] && b != [] && LastHash(a) == LastHash(b)
    ensures SameButSignature(a[|a| - 1], b[|b| - 1])
    ensures LastHash(a[..|a| - 1]) == LastHash(b[..|b| - 1])
  {
    var n, m := |a| - 1, |b| - 1;
    var x, y := a[n], b[m];
    assert Intact(h, x, LastHash(a[..n])) && Intact(h, y, LastHash(b[..m]));
    LastHashOneLine(h, a[..n], a);
    LastHashOneLine(h, b[..m], b);
    ChainInputInjective(x.sequence, x.timestamp, x.id, x.previousHash, x.payloadHash,
                        y.sequence, y.timestamp, y.id, y.previousHash, y.payloadHash);
  }

  lemma LastHashEmpty<R(!new)>(h: Hashing<R>, chain: seq<Envelope<R>>)
    requires Ideal(h)
    ensures Verifies(h, chain) ==> (LastHash(chain) == "" <==> chain == [])
  {
    if chain != [] && Verifies(h, chain) {
      assert Intact(h, chain[|chain| - 1], LastHash(chain[..|chain| - 1]));
    }
  }

  lemma LastHashOneLine<R(!new)>(h: Hashing<R>, a: seq<Envelope<R>>, whole: seq<Envelope<R>>)
    requires Ideal(h) && Verifies(h, whole) && a <= whole
    ensures OneLine(LastHash(a))
  {
    if a != [] {
      var k := |a| - 1;
      assert a[k] == whole[k];
      assert Intact(h, whole[k], LastHash(whole[..k]));
    }
  }

  // ---------- the store ----------

  /** One call of `SaveAuditEnvelope`: the record and the time it is saved at. */
  datatype Save<R> = Save(record: R, timestamp: string)

  /** The envelope the `n`-th save appends after `log`. */
  function Saved<R>(h: Hashing<R>, log: seq<Envelope<R>>, n: nat, save: Save<R>): Envelope<R> {
    var id, previous, payload := "audit_" + Number(n), LastHash(log), h.payload(save.record);
    Envelope(id, n, save.timestamp, previous, payload,
             h.digest(ChainInput(n, save.timestamp, id, previous, payload)), "", save.record)
  }

  /** The log after a run of saves. */
  function LogOf<R>(h: Hashing<R>, saves: seq<Save<R>>): (log: seq<Envelope<R>>)
    ensures |log| == |saves|
  {
    if saves == [] then []
    else
      var log := LogOf(h, saves[..|saves| - 1]);
      log + [Saved(h, log, |saves|, saves[|saves| - 1])]
  }

  lemma LogStep<R>(h: Hashing<R>, saves: seq<Save<R>>, save: Save<R>)
    ensures LogOf(h, saves + [save]) == LogOf(h, saves) + [Saved(h, LogOf(h, saves), |saves| + 1, save)]
  {
    assert (saves + [save])[..|saves|] == saves;
  }

  /** The maps and the order list hold exactly this log. */
  ghost predicate Stores<R>(log: seq<Envelope<R>>, audits: map<string, R>, envelopes: map<string, Envelope<R>>,
                            order: seq<string>) {
    && |order| == |log|
    && (forall k :: 0 <= k < |log| ==> order[k] == log[k].id)
    && (forall k :: 0 <= k < |log| ==> log[k].id in envelopes && envelopes[log[k].id] == log[k])
    && (forall k :: 0 <= k < |log| ==> log[k].id in audits && audits[log[k].id] == log[k].record)
    && envelopes.Keys == audits.Keys == set id | id in order
  }

  lemma StoresStep<R>(log: seq<Envelope<R>>, audits: map<string, R>, envelopes: map<string, Envelope<R>>,
                      order: seq<string>, e: Envelope<R>)
    requires Stores(log, audits, envelopes, order) && forall k :: 0 <= k < |log| ==> log[k].id != e.id
    ensures Stores(log + [e], audits[e.id := e.record], envelopes[e.id := e], order + [e.id])
  {
  }

  class MemoryDecisionStore<R> {
    var audits: map<string, R>
    var envelopes: map<string, Envelope<R>>
    var auditOrder: seq<string>
    var nextAudit: int
    var lastAuditHash: string
    ghost var saves: seq<Save<R>>
    const h: Hashing<R>

    /** The store holds exactly the log of the saves so far, in order and by id. */
    ghost predicate Valid()
      reads this
    {
      && nextAudit == |saves|
      && lastAuditHash == LastHash(LogOf(h, saves))
      && Stores(LogOf(h, saves), audits, envelopes, auditOrder)
    }

    constructor (h: Hashing<R>)
      ensures Valid() && saves == [] && this.h == h
    {
      this.h := h;
      audits, envelopes, auditOrder, nextAudit, lastAuditHash := map[], map[], [], 0, "";
      saves := [];
    }

    /** `SaveAuditEnvelope`. A context that is over is refused before anything changes. */
    method SaveAuditEnvelope(live: bool, audit: R, timestamp: string) returns (out: Option<Envelope<R>>)
      requires Valid() && nextAudit + 1 < 0x8000_0000_0000_0000
      modifies this
      ensures Valid() && (out.Some? <==> live)
      ensures saves == old(saves) + if live then [Save(audit, timestamp)] else []
      ensures live ==> out.value == Saved(h, LogOf(h, old(saves)), |saves|, Save(audit, timestamp))
    {
      hide Stores, Number, ChainInput, LogOf, LastHash;
      if !live {
        return None;
      }
      ghost var log := LogOf(h, saves);
      ghost var save := Save(audit, timestamp);
      LogStep(h, saves, save);
      LastHashMore(log, Saved(h, log, nextAudit + 1, save));
      nextAudit := nextAudit + 1;
      var number := FormatInt(nextAudit);
      var id := "audit_" + number;
      saves := saves + [save];
      var payloadHash := h.payload(audit);
      var envelope := Envelope(id, nextAudit, timestamp, lastAuditHash, payloadHash, "", "", audit);
      envelope := envelope.(chainHash := ChainHash(h, envelope));
      assert envelope == Saved(h, log, nextAudit, save);
      FreshId(h, log, old(saves), nextAudit);
      StoresStep(log, audits, envelopes, auditOrder, envelope);
      audits := audits[id := audit];
      envelopes := envelopes[id := envelope];
      auditOrder := auditOrder + [id];
      lastAuditHash := envelope.chainHash;
      out := Some(envelope);
    }

    /** `ListAuditEnvelopes`. */
    method ListAuditEnvelopes() returns (out: seq<Envelope<R>>)
      requires Valid()
      ensures out == LogOf(h, saves)
    {
      out := [];
      for i := 0 to |auditOrder|
        invariant out == LogOf(h, saves)[..i]
      {
        out := out + [envelopes[auditOrder[i]]];
      }
    }
  }

  // ---------- runs of saves ----------

  /** The k-th envelope has number k + 1, an id made of it, the k-th record and time, and no signature yet. */
  ghost predicate Numbered<R>(log: seq<Envelope<R>>, saves: seq<Save<R>>) {
    && |log| == |saves|
    && forall k :: 0 <= k < |log| ==>
         && log[k].sequence == k + 1 && log[k].id == "audit_" + Number(k + 1)
         && log[k].record == saves[k].record && log[k].timestamp == saves[k].timestamp && log[k].signature == ""
  }

  lemma {:induction false} LogNumbered<R>(h: Hashing<R>, saves: seq<Save<R>>)
    ensures Numbered(LogOf(h, saves), saves)
  {
    if saves != [] {
      LogNumbered(h, saves[..|saves| - 1]);
    }
  }

  lemma SameIdSameNumber(a: nat, b: nat)
    requires "audit_" + Number(a) == "audit_" + Number(b)
    ensures a == b
  {
    assert ("audit_" + Number(a))[6..] == Number(a) && ("audit_" + Number(b))[6..] == Number(b);
    NumberInjective(a, b);
  }

  /** A new number gives an id not used before. */
  lemma FreshId<R>(h: Hashing<R>, log: seq<Envelope<R>>, saves: seq<Save<R>>, n: nat)
    requires log == LogOf(h, saves) && n == |saves| + 1
    ensures forall k :: 0 <= k < |log| ==> log[k].id != "audit_" + Number(n)
  {
    LogNumbered(h, saves);
    forall k | 0 <= k < |log|
      ensures log[k].id != "audit_" + Number(n)
    {
      if log[k].id == "audit_" + Number(n) {
        SameIdSameNumber(k + 1, n);
      }
    }
  }

  /** After every run of saves all ids are distinct. */
  lemma IdsDistinct<R>(h: Hashing<R>, saves: seq<Save<R>>, j: int, k: int)
    requires 0 <= j < k < |LogOf(h, saves)|
    ensures LogOf(h, saves)[j].id != LogOf(h, saves)[k].id
  {
    LogNumbered(h, saves);
    var log := LogOf(h, saves);
    if log[j].id == log[k].id {
      SameIdSameNumber(j + 1, k + 1);
    }
  }

  /** After every run of saves the log holds every record once, numbered 1 to n, and passes `VerifyAuditChain`. */
  lemma {:induction false} RunVerifies<R>(h: Hashing<R>, saves: seq<Save<R>>)
    ensures Verifies(h, LogOf(h, saves)) && Numbered(LogOf(h, saves), saves)
  {
    hide Verifies, Number;
    LogNumbered(h, saves);
    if saves == [] {
      NothingToVerify(h);
    } else {
      var n := |saves| - 1;
      var log := LogOf(h, saves[..n]);
      RunVerifies(h, saves[..n]);
      VerifiesStep(h, log, Saved(h, log, n + 1, saves[n]));
    }
  }

  lemma NothingToVerify<R>(h: Hashing<R>)
    ensures Verifies(h, [])
  {
  }

  /** What any caller sees of a store, whatever saves led to it: the listing is numbered 1 to n with distinct ids,
      verifies, and ends in the hash the next envelope will build on. */
  lemma StoreSound<R>(store: MemoryDecisionStore<R>)
    requires store.Valid()
    ensures var list := LogOf(store.h, store.saves);
            && Verifies(store.h, list) && Numbered(list, store.saves)
            && store.nextAudit == |list| && store.lastAuditHash == LastHash(list)
            && forall j, k :: 0 <= j < k < |list| ==> list[j].id != list[k].id
  {
    RunVerifies(store.h, store.saves);
    forall j, k | 0 <= j < k < |store.saves|
      ensures LogOf(store.h, store.saves)[j].id != LogOf(store.h, store.saves)[k].id
    {
      IdsDistinct(store.h, store.saves, j, k);
    }
  }
}
