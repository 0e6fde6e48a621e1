/**
 * The attribute interceptor, `EncryptionBehavior`: attached to one record, it
 * encrypts the configured attributes in place before the record is written
 * and decrypts them in place after the record is read or written.
 */
module Behaviors {
  import opened Wrappers
  import opened Php
  import opened Encryption
  import Cipher

  /** An attribute value: a string, or the `false` a failed decryption leaves behind. */
  datatype Value = Text(bytes: Bytes) | False

  /** The string PHP passes for a value given to a `string` parameter: `false` becomes "". */
  function AsString(v: Value): Bytes {
    match v
    case Text(b) => b
    case False => []
  }

  /** `encrypt` applied to an attribute value with the IV it drew. */
  function Sealed(e: Engine, iv: Bytes, v: Value): Value {
    Text(e.seal(iv, AsString(v)))
  }

  /** The value `decrypt` leaves in the attribute: the plaintext, or `false`. */
  function FromDecrypt(r: Option<Bytes>): Value {
    match r
    case Some(plain) => Text(plain)
    case None => False
  }

  /** `decrypt` applied to an attribute value. */
  function Opened(e: Engine, v: Value): Value {
    FromDecrypt(e.open(AsString(v)))
  }

  /** The InvalidConfigException of a missing engine, and the exception Yii raises for an unknown attribute. */
  datatype BehaviorError = EncrypterMissing | UnknownProperty(name: string)

  /** The attribute values a handler leaves on the record, and whether it threw. */
  datatype Run = Run(values: map<string, Value>, outcome: Outcome<BehaviorError>)

  /** What one list entry does to its attribute: `encryptValue` with the IV drawn, or `decryptValue`. */
  datatype Direction = Encrypting(iv: Bytes) | Decrypting

  function Transform(e: Engine, d: Direction, v: Value): Value {
    match d
    case Encrypting(iv) => Sealed(e, iv, v)
    case Decrypting => Opened(e, v)
  }

  /**
   * One list entry of a handler: the engine is looked up first, then the
   * attribute is read, then the transformed value is written back.
   */
  function Step(engine: Option<Engine>, values: map<string, Value>, name: string, d: Direction): Run {
    if engine.None? then Run(values, Fail(EncrypterMissing))
    else if name !in values then Run(values, Fail(UnknownProperty(name)))
    else Run(values[name := Transform(engine.value, d, values[name])], Pass)
  }

  /**
   * One entry throws exactly when the engine or the attribute is missing, and
   * then writes nothing; otherwise it changes the named attribute and no other.
   */
  lemma StepEffect(engine: Option<Engine>, values: map<string, Value>, name: string, d: Direction)
    ensures var r := Step(engine, values, name, d);
      r.values.Keys == values.Keys &&
      (r.outcome.Pass? <==> engine.Some? && name in values) &&
      (r.outcome.Fail? ==> r.values == values) &&
      forall m :: m in values && m != name ==> r.values[m] == values[m]
  {
  }

  /**
   * `encryptAllAttributes`: the list entries in order, the i-th encrypted with
   * `ivs[i]`, stopping at the first exception. Only listed attributes change;
   * with no engine and a non-empty list it throws before writing anything.
   */
  function EncryptedAll(engine: Option<Engine>, values: map<string, Value>, names: seq<string>, ivs: seq<Bytes>): (r: Run)
    requires |ivs| == |names|
    ensures r.values.Keys == values.Keys
    decreases |names|
  {
    if names == [] then Run(values, Pass)
    else
      var prev := EncryptedAll(engine, values, names[..|names| - 1], ivs[..|ivs| - 1]);
      if prev.outcome.Fail? then prev
      else Step(engine, prev.values, names[|names| - 1], Encrypting(ivs[|ivs| - 1]))
  }

  /**
   * `decryptAllAttributes`: the list entries in order, stopping at the first
   * exception; a failed decryption stores `false` and is not an exception.
   */
  function DecryptedAll(engine: Option<Engine>, values: map<string, Value>, names: seq<string>): (r: Run)
    ensures r.values.Keys == values.Keys
    decreases |names|
  {
    if names == [] then Run(values, Pass)
    else
      var prev := DecryptedAll(engine, values, names[..|names| - 1]);
      if prev.outcome.Fail? then prev
      else Step(engine, prev.values, names[|names| - 1], Decrypting)
  }

  /**
   * `encryptAllAttributes` goes through exactly when an engine is there (or
   * the list is empty) and every listed attribute exists; with no engine and
   * a non-empty list it throws before writing anything.
   */
  lemma {:induction false} EncryptedAllOutcome(engine: Option<Engine>, values: map<string, Value>, names: seq<string>, ivs: seq<Bytes>)
    requires |ivs| == |names|
    ensures EncryptedAll(engine, values, names, ivs).outcome.Pass?
      <==> (names == [] || engine.Some?) && forall i :: 0 <= i < |names| ==> names[i] in values
    ensures engine.None? && names != [] ==> EncryptedAll(engine, values, names, ivs) == Run(values, Fail(EncrypterMissing))
    decreases |names|
  {
    if names != [] {
      var k := |names| - 1;
      EncryptedAllOutcome(engine, values, names[..k], ivs[..k]);
      assert forall i :: 0 <= i < k ==> names[..k][i] == names[i];
    }
  }

  /**
   * `decryptAllAttributes` goes through exactly when an engine is there (or
   * the list is empty) and every listed attribute exists; with no engine and
   * a non-empty list it throws before writing anything.
   */
  lemma {:induction false} DecryptedAllOutcome(engine: Option<Engine>, values: map<string, Value>, names: seq<string>)
    ensures DecryptedAll(engine, values, names).outcome.Pass?
      <==> (names == [] || engine.Some?) && forall i :: 0 <= i < |names| ==> names[i] in values
    ensures engine.None? && names != [] ==> DecryptedAll(engine, values, names) == Run(values, Fail(EncrypterMissing))
    decreases |names|
  {
    if names != [] {
      var k := |names| - 1;
      DecryptedAllOutcome(engine, values, names[..k]);
      assert forall i :: 0 <= i < k ==> names[..k][i] == names[i];
    }
  }

  /** Attributes that are not listed keep their value. */
  lemma {:induction false} EncryptedAllFrame(engine: Option<Engine>, values: map<string, Value>, names: seq<string>, ivs: seq<Bytes>, n: string)
    requires |ivs| == |names| && n in values && n !in names
    ensures EncryptedAll(engine, values, names, ivs).values[n] == values[n]
    decreases |names|
  {
    if names != [] {
      var k := |names| - 1;
      assert n !in names[..k];
      EncryptedAllFrame(engine, values, names[..k], ivs[..k], n);
    }
  }

  /** Attributes that are not listed keep their value. */
  lemma {:induction false} DecryptedAllFrame(engine: Option<Engine>, values: map<string, Value>, names: seq<string>, n: string)
    requires n in values && n !in names
    ensures DecryptedAll(engine, values, names).values[n] == values[n]
    decreases |names|
  {
    if names != [] {
      var k := |names| - 1;
      assert n !in names[..k];
      DecryptedAllFrame(engine, values, names[..k], n);
    }
  }

  /** A handler that has thrown stops: the entries after the failing one change nothing. */
  lemma {:induction false} EncryptedAllStops(engine: Option<Engine>, values: map<string, Value>, names: seq<string>, ivs: seq<Bytes>, j: nat)
    requires |ivs| == |names| && j <= |names|
    requires EncryptedAll(engine, values, names[..j], ivs[..j]).outcome.Fail?
    ensures EncryptedAll(engine, values, names, ivs) == EncryptedAll(engine, values, names[..j], ivs[..j])
    decreases |names|
  {
    if j < |names| {
      var k := |names| - 1;
      assert names[..k][..j] == names[..j] && ivs[..k][..j] == ivs[..j];
      EncryptedAllStops(engine, values, names[..k], ivs[..k], j);
      var prev := EncryptedAll(engine, values, names[..k], ivs[..k]);
      assert prev.outcome.Fail?;
      assert EncryptedAll(engine, values, names, ivs) == prev;
    } else {
      assert names[..j] == names && ivs[..j] == ivs;
    }
  }

  /** A handler that has thrown stops: the entries after the failing one change nothing. */
  lemma {:induction false} DecryptedAllStops(engine: Option<Engine>, values: map<string, Value>, names: seq<string>, j: nat)
    requires j <= |names|
    requires DecryptedAll(engine, values, names[..j]).outcome.Fail?
    ensures DecryptedAll(engine, values, names) == DecryptedAll(engine, values, names[..j])
    decreases |names|
  {
    if j < |names| {
      var k := |names| - 1;
      assert names[..k][..j] == names[..j];
      DecryptedAllStops(engine, values, names[..k], j);
      var prev := DecryptedAll(engine, values, names[..k]);
      assert prev.outcome.Fail?;
      assert DecryptedAll(engine, values, names) == prev;
    } else {
      assert names[..j] == names;
    }
  }

  /** Running one more entry of a handler that has not thrown is one more `Step`. */
  lemma EncryptedAllNext(engine: Option<Engine>, values: map<string, Value>, names: seq<string>, ivs: seq<Bytes>, iv: Bytes, current: map<string, Value>, after: Run)
    requires |ivs| < |names| && EncryptedAll(engine, values, names[..|ivs|], ivs) == Run(current, Pass)
    requires after == Step(engine, current, names[|ivs|], Encrypting(iv))
    requires ValidIvs(ivs) && |iv| == IV_LENGTH
    ensures EncryptedAll(engine, values, names[..|ivs| + 1], ivs + [iv]) == after
    ensures ValidIvs(ivs + [iv])
  {
    var i := |ivs|;
    assert names[..i + 1][..i] == names[..i] && (ivs + [iv])[..i] == ivs;
  }

  /** A handler that has thrown at entry `|ivs| - 1` ends there, whatever IVs the later entries would have drawn. */
  lemma EncryptedAllHalts(engine: Option<Engine>, values: map<string, Value>, names: seq<string>, ivs: seq<Bytes>)
    requires |ivs| <= |names| && EncryptedAll(engine, values, names[..|ivs|], ivs).outcome.Fail?
    requires ValidIvs(ivs)
    ensures var full := ivs + Undrawn(|names| - |ivs|);
      |full| == |names| && ValidIvs(full) &&
      EncryptedAll(engine, values, names, full) == EncryptedAll(engine, values, names[..|ivs|], ivs)
  {
    var full := ivs + Undrawn(|names| - |ivs|);
    assert full[..|ivs|] == ivs;
    EncryptedAllStops(engine, values, names, full, |ivs|);
  }

  /** Running one more entry of a handler that has not thrown is one more `Step`. */
  lemma DecryptedAllNext(engine: Option<Engine>, values: map<string, Value>, names: seq<string>, i: nat, current: map<string, Value>)
    requires i < |names| && DecryptedAll(engine, values, names[..i]) == Run(current, Pass)
    ensures DecryptedAll(engine, values, names[..i + 1]) == Step(engine, current, names[i], Decrypting)
  {
    assert names[..i + 1][..i] == names[..i];
  }

  /** Every IV of `ivs` has the length `encrypt` draws. */
  predicate ValidIvs(ivs: seq<Bytes>) {
    forall k :: 0 <= k < |ivs| ==> |ivs[k]| == IV_LENGTH
  }

  /** How many times `n` is listed. */
  function Occurrences(n: string, names: seq<string>): (r: nat)
    ensures r == 0 <==> n !in names
    ensures r <= |names|
  {
    if names == [] then 0
    else Occurrences(n, names[..|names| - 1]) + (if names[|names| - 1] == n then 1 else 0)
  }

  /** Counting the last entry. */
  lemma OccurrencesLast(n: string, names: seq<string>)
    requires names != []
    ensures Occurrences(n, names) == Occurrences(n, names[..|names| - 1]) + (if names[|names| - 1] == n then 1 else 0)
  {
  }

  /** The IVs drawn for the entries that name `n`, in list order. */
  function IvsOf(n: string, names: seq<string>, ivs: seq<Bytes>): (r: seq<Bytes>)
    requires |ivs| == |names|
    ensures |r| == Occurrences(n, names)
    ensures ValidIvs(ivs) ==> ValidIvs(r)
  {
    if names == [] then []
    else
      var k := |names| - 1;
      IvsOf(n, names[..k], ivs[..k]) + (if names[k] == n then [ivs[k]] else [])
  }

  /** A value encrypted once per IV of `ivs`, first IV innermost. */
  function SealChain(e: Engine, v: Value, ivs: seq<Bytes>): (r: Value)
    ensures ivs != [] ==> r.Text?
  {
    if ivs == [] then v
    else Sealed(e, ivs[|ivs| - 1], SealChain(e, v, ivs[..|ivs| - 1]))
  }

  /** A value decrypted `k` times over. */
  function OpenTimes(e: Engine, v: Value, k: nat): Value {
    if k == 0 then v else Opened(e, OpenTimes(e, v, k - 1))
  }

  /**
   * Order and duplicates follow the list: after `encryptAllAttributes` runs
   * through, an attribute holds its old value encrypted once per time it is
   * listed, with the IVs drawn for those entries, in list order.
   */
  lemma {:induction false} EncryptedChain(e: Engine, values: map<string, Value>, names: seq<string>, ivs: seq<Bytes>, n: string)
    requires |ivs| == |names| && n in values
    requires EncryptedAll(Some(e), values, names, ivs).outcome.Pass?
    ensures EncryptedAll(Some(e), values, names, ivs).values[n] == SealChain(e, values[n], IvsOf(n, names, ivs))
    decreases |names|
  {
    if names != [] {
      var k := |names| - 1;
      var prev := EncryptedAll(Some(e), values, names[..k], ivs[..k]);
      assert prev.outcome.Pass?;
      assert EncryptedAll(Some(e), values, names, ivs).values
        == prev.values[names[k] := Sealed(e, ivs[k], prev.values[names[k]])];
      EncryptedChain(e, values, names[..k], ivs[..k], n);
      var chain := IvsOf(n, names[..k], ivs[..k]);
      if names[k] == n {
        assert IvsOf(n, names, ivs) == chain + [ivs[k]];
        assert (chain + [ivs[k]])[..|chain|] == chain;
      } else {
        assert IvsOf(n, names, ivs) == chain;
      }
    }
  }

  /** After `decryptAllAttributes` runs through, an attribute holds its old value decrypted once per time it is listed. */
  lemma {:induction false} DecryptedChain(e: Engine, values: map<string, Value>, names: seq<string>, n: string)
    requires n in values
    requires DecryptedAll(Some(e), values, names).outcome.Pass?
    ensures DecryptedAll(Some(e), values, names).values[n] == OpenTimes(e, values[n], Occurrences(n, names))
    decreases |names|
  {
    if names != [] {
      var k := |names| - 1;
      var prev := DecryptedAll(Some(e), values, names[..k]);
      assert prev.outcome.Pass?;
      assert DecryptedAll(Some(e), values, names).values
        == prev.values[names[k] := Opened(e, prev.values[names[k]])];
      DecryptedChain(e, values, names[..k], n);
      var c := Occurrences(n, names[..k]);
      OccurrencesLast(n, names);
      var result := DecryptedAll(Some(e), values, names).values;
      if names[k] == n {
        assert result[n] == Opened(e, prev.values[n]);
        assert prev.values[n] == OpenTimes(e, values[n], c);
        assert Occurrences(n, names) == c + 1;
        assert OpenTimes(e, values[n], c + 1) == Opened(e, OpenTimes(e, values[n], c));
      } else {
        assert result[n] == prev.values[n];
        assert Occurrences(n, names) == c;
      }
    } else {
      assert Occurrences(n, names) == 0;
      assert OpenTimes(e, values[n], 0) == values[n];
    }
  }

  /** Decrypting k + 1 times is decrypting once and then k times. */
  lemma {:induction false} OpenTimesShift(e: Engine, v: Value, k: nat)
    ensures OpenTimes(e, v, k + 1) == OpenTimes(e, Opened(e, v), k)
  {
    if k > 0 {
      OpenTimesShift(e, v, k - 1);
      assert OpenTimes(e, v, k + 1) == Opened(e, OpenTimes(e, v, k));
      assert OpenTimes(e, Opened(e, v), k) == Opened(e, OpenTimes(e, Opened(e, v), k - 1));
    }
  }

  /** Decrypting as many times as a string was encrypted gives the string back. */
  lemma {:induction false} OpenSealChain(e: Engine, plain: Bytes, ivs: seq<Bytes>)
    requires Reversible(e)
    requires ValidIvs(ivs)
    ensures OpenTimes(e, SealChain(e, Text(plain), ivs), |ivs|) == Text(plain)
  {
    if ivs != [] {
      var k := |ivs| - 1;
      var inner := SealChain(e, Text(plain), ivs[..k]);
      assert ValidIvs(ivs[..k]);
      assert Opened(e, SealChain(e, Text(plain), ivs)) == inner;
      OpenTimesShift(e, SealChain(e, Text(plain), ivs), k);
      OpenSealChain(e, plain, ivs[..k]);
    }
  }

  /** An attribute listed once holds `encrypt(old value)` afterwards, encrypted with the IV of its entry. */
  lemma {:induction false} EncryptedOnce(e: Engine, values: map<string, Value>, names: seq<string>, ivs: seq<Bytes>, i: nat)
    requires |ivs| == |names| && i < |names|
    requires forall j :: 0 <= j < |names| ==> names[j] in values
    requires Occurrences(names[i], names) == 1
    ensures EncryptedAll(Some(e), values, names, ivs).values[names[i]] == Sealed(e, ivs[i], values[names[i]])
  {
    var n := names[i];
    EncryptedAllOutcome(Some(e), values, names, ivs);
    EncryptedChain(e, values, names, ivs, n);
    IvsOfSingle(names, ivs, i);
  }

  /** The only IV drawn for a name listed once is the one of its entry. */
  lemma {:induction false} IvsOfSingle(names: seq<string>, ivs: seq<Bytes>, i: nat)
    requires |ivs| == |names| && i < |names|
    requires Occurrences(names[i], names) == 1
    ensures IvsOf(names[i], names, ivs) == [ivs[i]]
    decreases |names|
  {
    var k := |names| - 1;
    var n := names[i];
    if i == k {
      assert IvsOf(n, names[..k], ivs[..k]) == [];
    } else {
      assert names[..k][i] == n;
      assert n in names[..k];
      IvsOfSingle(names[..k], ivs[..k], i);
    }
  }

  /** An attribute listed once holds `decrypt(old value)` afterwards, or `false` if that failed. */
  lemma DecryptedOnce(e: Engine, values: map<string, Value>, names: seq<string>, i: nat)
    requires i < |names|
    requires forall j :: 0 <= j < |names| ==> names[j] in values
    requires Occurrences(names[i], names) == 1
    ensures DecryptedAll(Some(e), values, names).values[names[i]] == Opened(e, values[names[i]])
  {
    DecryptedAllOutcome(Some(e), values, names);
    DecryptedChain(e, values, names, names[i]);
  }

  /**
   * Only the first encryption sees the value itself, and it sees it as a
   * string: a chain over `false` is the chain over "".
   */
  lemma {:induction false} SealChainCoerces(e: Engine, v: Value, ivs: seq<Bytes>)
    requires ivs != []
    ensures SealChain(e, v, ivs) == SealChain(e, Text(AsString(v)), ivs)
    decreases |ivs|
  {
    var k := |ivs| - 1;
    if k == 0 {
      assert ivs[..k] == [];
      assert SealChain(e, v, ivs[..k]) == v;
      assert SealChain(e, Text(AsString(v)), ivs[..k]) == Text(AsString(v));
    } else {
      SealChainCoerces(e, v, ivs[..k]);
    }
  }

  /**
   * A listed attribute comes back from encrypting then decrypting the whole
   * list as the string it was passed as: a string as it was, `false` as "".
   */
  lemma RestoredAt(e: Engine, values: map<string, Value>, names: seq<string>, ivs: seq<Bytes>, n: string)
    requires Reversible(e)
    requires |ivs| == |names| && ValidIvs(ivs)
    requires forall i :: 0 <= i < |names| ==> names[i] in values
    requires n in names
    ensures n in values
    ensures var written := EncryptedAll(Some(e), values, names, ivs).values;
      DecryptedAll(Some(e), written, names).values[n] == Text(AsString(values[n]))
  {
    var i :| 0 <= i < |names| && names[i] == n;
    var written := EncryptedAll(Some(e), values, names, ivs).values;
    var chain := IvsOf(n, names, ivs);
    EncryptedAllOutcome(Some(e), values, names, ivs);
    DecryptedAllOutcome(Some(e), written, names);
    EncryptedChain(e, values, names, ivs, n);
    DecryptedChain(e, written, names, n);
    SealChainCoerces(e, values[n], chain);
    OpenSealChain(e, AsString(values[n]), chain);
  }

  /**
   * Encrypting then decrypting all listed attributes goes through whenever
   * every listed attribute exists; each listed attribute ends as the string
   * it was passed as, and every other attribute keeps its value. A `false`
   * left by an earlier failed decryption thus comes back as "".
   */
  lemma DecryptAfterEncrypt(e: Engine, values: map<string, Value>, names: seq<string>, ivs: seq<Bytes>)
    requires Reversible(e)
    requires |ivs| == |names| && ValidIvs(ivs)
    requires forall i :: 0 <= i < |names| ==> names[i] in values
    ensures EncryptedAll(Some(e), values, names, ivs).outcome == Pass
    ensures var read := DecryptedAll(Some(e), EncryptedAll(Some(e), values, names, ivs).values, names);
      read.outcome == Pass && read.values.Keys == values.Keys &&
      forall n :: n in values ==> read.values[n] == if n in names then Text(AsString(values[n])) else values[n]
  {
    var written := EncryptedAll(Some(e), values, names, ivs);
    var read := DecryptedAll(Some(e), written.values, names);
    EncryptedAllOutcome(Some(e), values, names, ivs);
    DecryptedAllOutcome(Some(e), written.values, names);
    forall n | n in values
      ensures read.values[n] == if n in names then Text(AsString(values[n])) else values[n]
    {
      if n in names {
        RestoredAt(e, values, names, ivs, n);
      } else {
        EncryptedAllFrame(Some(e), values, names, ivs, n);
        DecryptedAllFrame(Some(e), written.values, names, n);
      }
    }
  }

  /**
   * Decrypting all listed attributes undoes encrypting them all, whatever the
   * order and repetitions of the list, provided each listed attribute held a
   * string.
   */
  lemma DecryptUndoesEncrypt(e: Engine, values: map<string, Value>, names: seq<string>, ivs: seq<Bytes>)
    requires Reversible(e)
    requires |ivs| == |names| && ValidIvs(ivs)
    requires forall i :: 0 <= i < |names| ==> names[i] in values && values[names[i]].Text?
    ensures EncryptedAll(Some(e), values, names, ivs).outcome == Pass
    ensures DecryptedAll(Some(e), EncryptedAll(Some(e), values, names, ivs).values, names) == Run(values, Pass)
  {
    var read := DecryptedAll(Some(e), EncryptedAll(Some(e), values, names, ivs).values, names);
    DecryptAfterEncrypt(e, values, names, ivs);
    forall n | n in values
      ensures read.values[n] == values[n]
    {
      if n in names {
        var i :| 0 <= i < |names| && names[i] == n;
        assert values[n].Text?;
      }
    }
    assert read.values == values;
  }

  /** The lifecycle events of an ActiveRecord. */
  datatype RecordEvent =
    | Init | AfterFind | AfterRefresh
    | BeforeValidate | AfterValidate
    | BeforeInsert | AfterInsert
    | BeforeUpdate | AfterUpdate
    | BeforeDelete | AfterDelete

  /** The two handlers the behavior offers. */
  datatype Handler = EncryptAll | DecryptAll

  /** The event comes just before the record's attributes are written to storage. */
  predicate PrecedesWrite(ev: RecordEvent) {
    ev == BeforeInsert || ev == BeforeUpdate
  }

  /** The event comes just after the record's attributes were read from or written to storage. */
  predicate FollowsStorage(ev: RecordEvent) {
    ev == AfterFind || ev == AfterInsert || ev == AfterUpdate
  }

  /**
   * `events`: values are encrypted right before every write and decrypted
   * right after every read or write; no other event is handled.
   */
  function Events(): (table: map<RecordEvent, Handler>)
    ensures forall ev :: ev in table <==> PrecedesWrite(ev) || FollowsStorage(ev)
    ensures forall ev :: ev in table ==> (table[ev] == EncryptAll <==> PrecedesWrite(ev))
  {
    map[
      AfterFind := DecryptAll,
      BeforeInsert := EncryptAll,
      BeforeUpdate := EncryptAll,
      AfterInsert := DecryptAll,
      AfterUpdate := DecryptAll
    ]
  }

  /** What firing `ev` does to the record: the handler the table names, or nothing. */
  function Dispatch(ev: RecordEvent, engine: Option<Engine>, values: map<string, Value>, names: seq<string>, ivs: seq<Bytes>): (r: Run)
    requires |ivs| == |names|
    ensures r.values.Keys == values.Keys
    ensures PrecedesWrite(ev) ==> r == EncryptedAll(engine, values, names, ivs)
    ensures FollowsStorage(ev) ==> r == DecryptedAll(engine, values, names)
    ensures !PrecedesWrite(ev) && !FollowsStorage(ev) ==> r == Run(values, Pass)
  {
    if ev !in Events() then Run(values, Pass)
    else match Events()[ev]
      case EncryptAll => EncryptedAll(engine, values, names, ivs)
      case DecryptAll => DecryptedAll(engine, values, names)
  }

  /**
   * Saving a record leaves its listed attributes as they were: the handler of
   * BEFORE_INSERT followed by that of AFTER_INSERT (or BEFORE_UPDATE followed
   * by AFTER_UPDATE) restores every listed string. This is the case of
   * `WriteCycleCoerces` where no listed attribute holds `false`.
   */
  lemma WriteCycleRestores(before: RecordEvent, after: RecordEvent, lib: Cipher.Library, key: Bytes, values: map<string, Value>, names: seq<string>, ivs: seq<Bytes>, ivs': seq<Bytes>)
    requires (before, after) == (BeforeInsert, AfterInsert) || (before, after) == (BeforeUpdate, AfterUpdate)
    requires Cipher.Lawful(lib)
    requires |ivs| == |names| && |ivs'| == |names| && ValidIvs(ivs)
    requires forall i :: 0 <= i < |names| ==> names[i] in values && values[names[i]].Text?
    ensures var e := EngineFor(lib, key);
      var written := Dispatch(before, Some(e), values, names, ivs);
      written.outcome == Pass && Dispatch(after, Some(e), written.values, names, ivs') == Run(values, Pass)
  {
    LawfulEngineReversible(lib, key);
    DecryptUndoesEncrypt(EngineFor(lib, key), values, names, ivs);
  }

  /**
   * Saving a record whose listed attributes exist leaves each listed
   * attribute as the string it was passed as (`false` comes back as "") and
   * every other attribute as it was.
   */
  lemma WriteCycleCoerces(before: RecordEvent, after: RecordEvent, lib: Cipher.Library, key: Bytes, values: map<string, Value>, names: seq<string>, ivs: seq<Bytes>, ivs': seq<Bytes>)
    requires (before, after) == (BeforeInsert, AfterInsert) || (before, after) == (BeforeUpdate, AfterUpdate)
    requires Cipher.Lawful(lib)
    requires |ivs| == |names| && |ivs'| == |names| && ValidIvs(ivs)
    requires forall i :: 0 <= i < |names| ==> names[i] in values
    ensures var e := EngineFor(lib, key);
      var written := Dispatch(before, Some(e), values, names, ivs);
      var read := Dispatch(after, Some(e), written.values, names, ivs');
      written.outcome == Pass && read.outcome == Pass && read.values.Keys == values.Keys &&
      forall n :: n in values ==> read.values[n] == if n in names then Text(AsString(values[n])) else values[n]
  {
    LawfulEngineReversible(lib, key);
    DecryptAfterEncrypt(EngineFor(lib, key), values, names, ivs);
  }

  /** The record the behavior is attached to: its attribute values by name, read and written in place. */
  class Record {
    var values: map<string, Value>

    constructor(values: map<string, Value>)
      ensures this.values == values
    {
      this.values := values;
    }
  }

  /**
   * `getEncrypter`: the engine component, or `None` when the lookup throws,
   * either because no component is configured or because the component's
   * `init` refuses it for want of a key. For a component in a state `setKey`
   * can produce, the lookup succeeds exactly when `Init` would pass.
   */
  function EngineOf(encrypter: Encrypter?): (r: Option<Engine>)
    reads encrypter
    ensures encrypter == null ==> r == None
    ensures encrypter != null && encrypter.Valid() ==> (r.Some? <==> encrypter.key != [])
    ensures r.Some? ==> encrypter != null && r.value == encrypter.Snapshot()
  {
    if encrypter == null || IsEmpty(encrypter.key) then None else Some(encrypter.Snapshot())
  }

  /** The IV recorded for an entry that drew none. */
  const NO_IV: Bytes := [0, 0, 0, 0, 0, 0, 0, 0, 0, 0, 0, 0, 0, 0, 0, 0]

  /** IVs that were never drawn, to fill the entries a thrown handler did not reach. */
  function Undrawn(count: nat): (r: seq<Bytes>)
    ensures |r| == count && ValidIvs(r)
  {
    if count == 0 then [] else [NO_IV] + Undrawn(count - 1)
  }

  /** `EncryptionBehavior`: the configured attribute list, the owner record and the injected engine. */
  class EncryptionBehavior {
    const attributes: seq<string>
    const owner: Record
    const encrypter: Encrypter?

    constructor(attributes: seq<string>, owner: Record, encrypter: Encrypter?)
      ensures this.attributes == attributes && this.owner == owner && this.encrypter == encrypter
    {
      this.attributes := attributes;
      this.owner := owner;
      this.encrypter := encrypter;
    }

    /**
     * `encryptValue`: looks the engine up, reads the attribute, and writes back
     * its encryption; `iv` is the IV drawn.
     */
    method EncryptValue(name: string) returns (r: Outcome<BehaviorError>, ghost iv: Bytes)
      modifies owner
      ensures |iv| == IV_LENGTH
      ensures Run(owner.values, r) == Step(EngineOf(encrypter), old(owner.values), name, Encrypting(iv))
    {
      if EngineOf(encrypter).None? {
        return Fail(EncrypterMissing), NO_IV;
      }
      if name !in owner.values {
        return Fail(UnknownProperty(name)), NO_IV;
      }
      var encrypted;
      encrypted, iv := encrypter.Encrypt(AsString(owner.values[name]));
      owner.values := owner.values[name := Text(encrypted)];
      r := Pass;
    }

    /**
     * `decryptValue`: looks the engine up, reads the attribute, and writes back
     * its decryption, or `false` when that fails.
     */
    method DecryptValue(name: string) returns (r: Outcome<BehaviorError>)
      modifies owner
      ensures Run(owner.values, r) == Step(EngineOf(encrypter), old(owner.values), name, Decrypting)
    {
      if EngineOf(encrypter).None? {
        return Fail(EncrypterMissing);
      }
      if name !in owner.values {
        return Fail(UnknownProperty(name));
      }
      var decrypted := encrypter.Decrypt(AsString(owner.values[name]));
      owner.values := owner.values[name := FromDecrypt(decrypted)];
      r := Pass;
    }

    /**
     * `encryptAllAttributes`: encrypts each listed attribute of the owner in
     * place, in list order; `ivs` are the IVs drawn, one per entry.
     */
    method EncryptAllAttributes() returns (r: Outcome<BehaviorError>, ghost ivs: seq<Bytes>)
      modifies owner
      ensures |ivs| == |attributes| && ValidIvs(ivs)
      ensures Run(owner.values, r) == EncryptedAll(EngineOf(encrypter), old(owner.values), attributes, ivs)
    {
      ghost var engine := EngineOf(encrypter);
      ghost var start := owner.values;
      ivs := [];
      for i := 0 to |attributes|
        invariant |ivs| == i && ValidIvs(ivs)
        invariant EncryptedAll(engine, start, attributes[..i], ivs) == Run(owner.values, Pass)
      {
        ghost var current := owner.values;
        ghost var iv;
        r, iv := EncryptValue(attributes[i]);
        EncryptedAllNext(engine, start, attributes, ivs, iv, current, Run(owner.values, r));
        ivs := ivs + [iv];
        if r.Fail? {
          EncryptedAllHalts(engine, start, attributes, ivs);
          ivs := ivs + Undrawn(|attributes| - i - 1);
          return;
        }
      }
      r := Pass;
      assert attributes[..|attributes|] == attributes;
    }

    /**
     * `decryptAllAttributes`: decrypts each listed attribute of the owner in
     * place, in list order; a failed decryption stores `false`.
     */
    method DecryptAllAttributes() returns (r: Outcome<BehaviorError>)
      modifies owner
      ensures Run(owner.values, r) == DecryptedAll(EngineOf(encrypter), old(owner.values), attributes)
    {
      ghost var engine := EngineOf(encrypter);
      ghost var start := owner.values;
      for i := 0 to |attributes|
        invariant DecryptedAll(engine, start, attributes[..i]) == Run(owner.values, Pass)
      {
        DecryptedAllNext(engine, start, attributes, i, owner.values);
        r := DecryptValue(attributes[i]);
        if r.Fail? {
          DecryptedAllStops(engine, start, attributes, i + 1);
          return;
        }
      }
      r := Pass;
      assert attributes[..|attributes|] == attributes;
    }

    /** The host fires `ev`: the handler `events` names for it runs, and any other event changes nothing. */
    method Trigger(ev: RecordEvent) returns (r: Outcome<BehaviorError>, ghost ivs: seq<Bytes>)
      modifies owner
      ensures |ivs| == |attributes| && ValidIvs(ivs)
      ensures Run(owner.values, r) == Dispatch(ev, EngineOf(encrypter), old(owner.values), attributes, ivs)
    {
      var table := Events();
      if ev !in table {
        r, ivs := Pass, Undrawn(|attributes|);
      } else if table[ev] == EncryptAll {
        r, ivs := EncryptAllAttributes();
      } else {
        r := DecryptAllAttributes();
        ivs := Undrawn(|attributes|);
      }
    }
  }
}
