/**
 * The memoised decoder (`src/emulator/cpu/decode/index.ts`): a map from encodings to thunks whose
 * insertion order is its recency order, bounded at 8192 entries. The two field decoders are
 * parameters: nothing here depends on what they return.
 */
module DecodeCache {
  import opened Bytes
  import opened Common

  const MAX_ENTRIES: nat := 8192

  predicate IsThirtyTwoBit(encoded: nat) { encoded % 4 == 3 }

  function Length(encoded: nat): nat { if IsThirtyTwoBit(encoded) then 4 else 2 }

  /** The whole word, or the halfword that a compressed instruction occupies. */
  function Key(encoded: nat): nat { if IsThirtyTwoBit(encoded) then encoded else encoded % 0x1_0000 }

  function Decode<Thunk>(encoded: nat, decode32: nat -> Thunk, decodeC: nat -> Thunk): (Thunk, nat) {
    if !IsThirtyTwoBit(encoded) then (decodeC(encoded % 0x1_0000), 2) else (decode32(encoded), 4)
  }

  /**
   * A key determines thunk and length: 32-bit and compressed encodings never share one, and the upper
   * halfword of a compressed one is ignored.
   */
  lemma KeyDeterminesDecoding<Thunk>(a: nat, b: nat, decode32: nat -> Thunk, decodeC: nat -> Thunk)
    ensures Key(a) == Key(b) ==> Decode(a, decode32, decodeC) == Decode(b, decode32, decodeC) && Length(a) == Length(b)
    ensures Key(a) == Key(b) <==> a == b || (!IsThirtyTwoBit(a) && !IsThirtyTwoBit(b) && a % 0x1_0000 == b % 0x1_0000)
  {
    HalfwordKeepsLowBits(a);
    HalfwordKeepsLowBits(b);
  }

  lemma HalfwordKeepsLowBits(a: nat)
    ensures a % 0x1_0000 % 4 == a % 4
  {
    var q, r := a / 0x1_0000, a % 0x1_0000;
    assert a == 4 * (0x4000 * q) + r;
  }

  function Number(a: nat, b: nat, c: nat, d: nat): nat { a + 0x100 * b + 0x1_0000 * c + 0x100_0000 * d }

  /**
   * By bytes: an encoding whose low two bits are 11 is a 4-byte instruction, decoded from the whole word; any
   * other is a 2-byte one, decoded from its low halfword.
   */
  lemma DecodeByLowBits<Thunk>(word: seq<Byte>, decode32: nat -> Thunk, decodeC: nat -> Thunk)
    requires |word| == 4
    ensures Decode(LittleEndian(word), decode32, decodeC)
            == if word[0] % 4 == 3
               then (decode32(Number(word[0], word[1], word[2], word[3])), 4)
               else (decodeC(Number(word[0], word[1], 0, 0)), 2)
    ensures Length(LittleEndian(word)) == if word[0] % 4 == 3 then 4 else 2
  {
    hide LittleEndian, Number;
    FourBytes(word);
    LowHalf(word[0], word[1], word[2], word[3]);
  }

  lemma LowHalf(a: Byte, b: Byte, c: Byte, d: Byte)
    ensures Number(a, b, c, d) >= 0 && Number(a, b, c, d) % 0x1_0000 == Number(a, b, 0, 0)
    ensures Number(a, b, c, d) % 4 == a % 4
  {
    var low: int, high: int := Number(a, b, 0, 0), Number(c, d, 0, 0);
    assert Number(a, b, c, d) == high * 0x1_0000 + low;
    ModUnique(Number(a, b, c, d), 0x1_0000, high, low);
    assert Number(a, b, c, d) == (a / 4 + 0x40 * b + 0x4000 * high) * 4 + a % 4;
    ModUnique(Number(a, b, c, d), 4, a / 4 + 0x40 * b + 0x4000 * high, a % 4);
  }

  lemma LowByteFirst(bytes: seq<Byte>)
    requires bytes != []
    ensures LittleEndian(bytes) == bytes[0] + 256 * LittleEndian(bytes[1..])
  {
  }

  lemma FourBytes(word: seq<Byte>)
    requires |word| == 4
    ensures LittleEndian(word) == Number(word[0], word[1], word[2], word[3])
  {
    var a, b, c := word[1..], word[2..], word[3..];
    assert c[0] == word[3] && c[1..] == [];
    assert b[0] == word[2] && b[1..] == c;
    assert a[0] == word[1] && a[1..] == b;
    LowByteFirst(c);
    LowByteFirst(b);
    LowByteFirst(a);
    LowByteFirst(word);
    assert LittleEndian([]) == 0;
    hide LittleEndian;
  }

  /** The cache holds 8192 keys once that many have been used, and until then all of them. */
  lemma CacheIsBounded(history: seq<nat>)
    ensures |Last(Recency(history), MAX_ENTRIES)| == if |Recency(history)| < 8192 then |Recency(history)| else 8192
  {
  }

  // ---------- Recency ----------

  function Without(keys: seq<nat>, key: nat): seq<nat> {
    if keys == [] then [] else (if keys[0] == key then [] else [keys[0]]) + Without(keys[1..], key)
  }

  /** The distinct keys of a history, least recently used first. */
  function Recency(history: seq<nat>): seq<nat> {
    if history == [] then []
    else Without(Recency(history[..|history| - 1]), history[|history| - 1]) + [history[|history| - 1]]
  }

  function Last(keys: seq<nat>, n: nat): seq<nat> { if |keys| <= n then keys else keys[|keys| - n..] }

  /** Index of the last occurrence. */
  function LastUse(history: seq<nat>, key: nat): (i: nat)
    requires key in history
    ensures i < |history| && history[i] == key && forall j :: i < j < |history| ==> history[j] != key
  {
    if history[|history| - 1] == key then |history| - 1
    else
      assert key in history[..|history| - 1];
      LastUse(history[..|history| - 1], key)
  }

  lemma {:induction false} WithoutAbsent(keys: seq<nat>, key: nat)
    requires key !in keys
    ensures Without(keys, key) == keys
  {
    if keys != [] {
      WithoutAbsent(keys[1..], key);
    }
  }

  lemma {:induction false} WithoutAppend(a: seq<nat>, b: seq<nat>, key: nat)
    ensures Without(a + b, key) == Without(a, key) + Without(b, key)
  {
    if a == [] {
      assert a + b == b;
    } else {
      assert (a + b)[1..] == a[1..] + b;
      WithoutAppend(a[1..], b, key);
    }
  }

  lemma {:induction false} WithoutMembers(keys: seq<nat>, key: nat)
    ensures forall k :: k in Without(keys, key) <==> k in keys && k != key
  {
    if keys != [] {
      WithoutMembers(keys[1..], key);
    }
  }

  lemma {:induction false} WithoutShortens(keys: seq<nat>, key: nat)
    requires Distinct(keys) && key in keys
    ensures |Without(keys, key)| == |keys| - 1
  {
    if keys[0] == key {
      WithoutAbsent(keys[1..], key);
    } else {
      WithoutShortens(keys[1..], key);
    }
  }

  /** The keys occur in the history, earlier last uses first. */
  ghost predicate ByLastUse(history: seq<nat>, keys: seq<nat>) {
    && (forall k :: k in keys ==> k in history)
    && (forall i, j :: 0 <= i < j < |keys| ==> LastUse(history, keys[i]) < LastUse(history, keys[j]))
  }

  lemma {:induction false} WithoutKeepsOrder(history: seq<nat>, keys: seq<nat>, key: nat)
    requires ByLastUse(history, keys)
    ensures ByLastUse(history, Without(keys, key))
  {
    if keys != [] {
      WithoutKeepsOrder(history, keys[1..], key);
      WithoutMembers(keys[1..], key);
      var rest := Without(keys[1..], key);
      forall j | 0 <= j < |rest| ensures LastUse(history, keys[0]) < LastUse(history, rest[j]) {
        assert rest[j] in rest;
        var i :| 0 <= i < |keys| - 1 && keys[1..][i] == rest[j];
        assert keys[i + 1] == rest[j];
      }
    }
  }

  lemma LaterUse(history: seq<nat>, key: nat, keys: seq<nat>)
    requires ByLastUse(history, keys) && key !in keys
    ensures ByLastUse(history + [key], keys + [key])
  {
    var longer, all := history + [key], keys + [key];
    assert longer[..|history|] == history;
    forall i, j | 0 <= i < j < |all| ensures LastUse(longer, all[i]) < LastUse(longer, all[j]) {
      assert all[i] in keys && (j < |keys| ==> all[j] in keys);
    }
  }

  /** Recency order is the order of last uses, and it lists each used key once. */
  lemma {:induction false} RecencyIsByLastUse(history: seq<nat>)
    ensures Distinct(Recency(history)) && forall key :: key in Recency(history) <==> key in history
    ensures ByLastUse(history, Recency(history))
    decreases |history|
  {
    if history != [] {
      var before, key := history[..|history| - 1], history[|history| - 1];
      RecencyIsByLastUse(before);
      assert history == before + [key];
      WithoutMembers(Recency(before), key);
      WithoutKeepsOrder(before, Recency(before), key);
      LaterUse(before, key, Without(Recency(before), key));
    }
    OrderedIsDistinct(history, Recency(history));
  }

  lemma OrderedIsDistinct(history: seq<nat>, keys: seq<nat>)
    requires ByLastUse(history, keys)
    ensures Distinct(keys)
  {
  }

  // ---------- One step of the bounded map ----------

  /**
   * The keys after a use of `key`: refreshed if present, otherwise appended after evicting the oldest of a
   * full map.
   */
  function Used(keys: seq<nat>, key: nat): seq<nat> {
    if key in keys then Without(keys, key) + [key]
    else if |keys| >= MAX_ENTRIES then keys[1..] + [key]
    else keys + [key]
  }

  lemma RefreshedIsMostRecent(older: seq<nat>, recent: seq<nat>, key: nat)
    requires key in recent && key !in older && Distinct(recent)
    requires |recent| == MAX_ENTRIES || (|recent| < MAX_ENTRIES && older == [])
    ensures Last(Without(older + recent, key) + [key], MAX_ENTRIES) == Without(recent, key) + [key]
  {
    hide Without, Last, Distinct;
    WithoutAppend(older, recent, key);
    WithoutAbsent(older, key);
    WithoutShortens(recent, key);
    LastOfConcat(older, Without(recent, key) + [key]);
    assert older + (Without(recent, key) + [key]) == (older + Without(recent, key)) + [key];
  }

  lemma AppendedIsMostRecent(older: seq<nat>, recent: seq<nat>, key: nat)
    requires key !in recent && (|recent| == MAX_ENTRIES || (|recent| < MAX_ENTRIES && older == []))
    ensures Last(Without(older + recent, key) + [key], MAX_ENTRIES)
            == if |recent| >= MAX_ENTRIES then recent[1..] + [key] else recent + [key]
  {
    hide Without, Last;
    WithoutAppend(older, recent, key);
    WithoutAbsent(recent, key);
    if |recent| == MAX_ENTRIES {
      var rest := Without(older, key);
      LastOfConcat(rest + [recent[0]], recent[1..] + [key]);
      assert recent == [recent[0]] + recent[1..];
      assert (rest + [recent[0]]) + (recent[1..] + [key]) == (rest + recent) + [key];
    } else {
      WithoutAbsent(older, key);
      LastOfConcat([], recent + [key]);
      assert older + recent == recent && [] + (recent + [key]) == recent + [key];
    }
  }

  /** A bounded map of recent keys stays the most recent part of the unbounded recency list. */
  lemma UsedIsMostRecent(recency: seq<nat>, key: nat)
    requires Distinct(recency)
    ensures Used(Last(recency, MAX_ENTRIES), key) == Last(Without(recency, key) + [key], MAX_ENTRIES)
  {
    var recent := Last(recency, MAX_ENTRIES);
    var older := recency[..|recency| - |recent|];
    assert recency == older + recent;
    hide Without;
    if key in recent {
      NotBefore(recency, |older|, key);
      RefreshedIsMostRecent(older, recent, key);
    } else {
      AppendedIsMostRecent(older, recent, key);
    }
  }

  lemma NotBefore(keys: seq<nat>, n: nat, key: nat)
    requires Distinct(keys) && n <= |keys| && key in keys[n..]
    ensures key !in keys[..n] && Distinct(keys[n..])
  {
    var i :| 0 <= i < |keys| - n && keys[n..][i] == key;
    assert keys[n + i] == key;
  }

  lemma LastOfConcat(a: seq<nat>, b: seq<nat>)
    requires |b| == MAX_ENTRIES || (|b| < MAX_ENTRIES && a == [])
    ensures Last(a + b, MAX_ENTRIES) == b
  {
  }

  lemma RecencyAfter(history: seq<nat>, key: nat)
    ensures Recency(history + [key]) == Without(Recency(history), key) + [key]
  {
    assert (history + [key])[..|history|] == history;
  }

  // ---------- The cache ----------

  class Cache<Thunk(!new)> {
    const decode32: nat -> Thunk
    const decodeC: nat -> Thunk
    /** The map's keys in insertion order, and its values. */
    var keys: seq<nat>
    var thunks: map<nat, Thunk>
    /** Every key looked up so far. */
    ghost var history: seq<nat>

    ghost predicate Valid()
      reads this
    {
      && keys == Last(Recency(history), MAX_ENTRIES)
      && (forall key :: key in keys <==> key in thunks)
      && (forall encoded: nat :: Key(encoded) in thunks ==>
           thunks[Key(encoded)] == Decode(encoded, decode32, decodeC).0)
    }

    constructor (decode32: nat -> Thunk, decodeC: nat -> Thunk)
      ensures Valid() && history == [] && this.decode32 == decode32 && this.decodeC == decodeC
    {
      this.decode32, this.decodeC := decode32, decodeC;
      keys, thunks, history := [], map[], [];
    }

    /** Returns what `Decode` returns, and keeps exactly the 8192 most recently used distinct keys, in recency order. */
    method DecodeWithCache(word: seq<Byte>) returns (thunk: Thunk, length: nat)
      requires Valid() && |word| == 4
      modifies this
      ensures (thunk, length) == Decode(LittleEndian(word), decode32, decodeC)
      ensures Valid() && history == old(history) + [Key(LittleEndian(word))]
    {
      hide LittleEndian, Last, Recency, Without;
      var encoded := LittleEndian(word);
      var key := Key(encoded);
      length := Length(encoded);
      ghost var before := history;
      RecencyIsByLastUse(before);
      UsedIsMostRecent(Recency(before), key);
      history := history + [key];
      RecencyAfter(before, key);
      if key in thunks {
        thunk := thunks[key];
        WithoutMembers(keys, key);
        keys := Without(keys, key) + [key];
        return;
      }
      thunk := Decode(encoded, decode32, decodeC).0;
      forall other: nat | Key(other) == key ensures Decode(other, decode32, decodeC).0 == thunk {
        KeyDeterminesDecoding(encoded, other, decode32, decodeC);
      }
      if |keys| >= MAX_ENTRIES {
        var oldest := keys[0];
        LastIsDistinct(Recency(before), MAX_ENTRIES);
        OldestLeaves(keys);
        keys := keys[1..];
        thunks := thunks - {oldest};
      }
      keys := keys + [key];
      thunks := thunks[key := thunk];
    }
  }

  lemma LastIsDistinct(keys: seq<nat>, n: nat)
    requires Distinct(keys)
    ensures Distinct(Last(keys, n))
  {
  }

  lemma OldestLeaves(keys: seq<nat>)
    requires keys != [] && Distinct(keys)
    ensures forall k :: k in keys[1..] <==> k in keys && k != keys[0]
  {
    forall k ensures k in keys[1..] <==> k in keys && k != keys[0] {
      if k in keys && k != keys[0] {
        var i :| 0 <= i < |keys| && keys[i] == k;
        assert keys[1..][i - 1] == k;
      }
    }
  }
}
