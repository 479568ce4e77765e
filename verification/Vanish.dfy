/** The vanishing data object: a random key encrypts the data, the key is split, and the shares are scattered
    over locations that the access key determines; gathering a threshold of them gives the key back. */
module Vanish {
  import opened Bytes
  import opened Ids
  import opened Options
  import opened Sequences
  import opened Sss

  const BLOCK_SIZE := 16

  // A stream cipher as functions of the key, the initialisation vector and the text.
  datatype Cipher = Cipher(encrypt: (seq<byte>, seq<byte>, seq<byte>) -> seq<byte>,
                           decrypt: (seq<byte>, seq<byte>, seq<byte>) -> seq<byte>) {
    ghost predicate KeepsLength(key: seq<byte>, iv: seq<byte>, text: seq<byte>) {
      |encrypt(key, iv, text)| == |text| && |decrypt(key, iv, text)| == |text|
    }

    ghost predicate Inverts(key: seq<byte>, iv: seq<byte>, text: seq<byte>) {
      decrypt(key, iv, encrypt(key, iv, text)) == text
    }

    ghost predicate Valid() {
      && (forall key: seq<byte>, iv: seq<byte>, text: seq<byte> :: KeepsLength(key, iv, text))
      && (forall key: seq<byte>, iv: seq<byte>, text: seq<byte> :: Inverts(key, iv, text))
    }
  }

  predicate IsAesKey(key: seq<byte>) {
    |key| == 16 || |key| == 24 || |key| == 32
  }

  datatype Outcome = Data(bytes: seq<byte>) | Panic

  datatype Vdo = Vdo(accessKey: int, ciphertext: array<byte>, numberKeys: uint8, threshold: uint8)

  // The locations drawn from an access key, as many as asked for.
  datatype Locator = Locator(locate: (int, uint8) -> seq<Id>) {
    ghost predicate Draws(accessKey: int, count: uint8) {
      |locate(accessKey, count)| == count
    }

    ghost predicate Valid() {
      forall accessKey: int, count: uint8 :: Draws(accessKey, count)
    }
  }

  // The distributed store, as far as it returns what was last written.
  class Dht {
    var store: map<Id, seq<byte>>

    method IterativeStore(key: Id, value: seq<byte>)
      modifies this
      ensures store == old(store)[key := value]
    {
      store := store[key := value];
    }

    method IterativeFindValue(key: Id) returns (value: seq<byte>)
      ensures value == if key in store then store[key] else []
    {
      value := if key in store then store[key] else [];
    }
  }

  // ---------- Scattering ----------

  // A share on the wire: the holder's number, then the bytes.
  function Frame(h: uint8, share: seq<byte>): seq<byte> {
    [AsByte(h)] + share
  }

  // The store after the first n shares of the listing have gone to the first n locations.
  ghost function Scatter(store: map<Id, seq<byte>>, locations: seq<Id>, shares: Shares, keys: seq<uint8>, n: nat)
    : map<Id, seq<byte>>
    requires n <= |keys| && n <= |locations| && forall j | 0 <= j < |keys| :: keys[j] in shares
  {
    if n == 0 then store
    else Scatter(store, locations, shares, keys, n - 1)[locations[n - 1] := Frame(keys[n - 1], shares[keys[n - 1]])]
  }

  // The program's loop over the share map: one share to each location in turn.
  method ScatterShares(shares: Shares, locations: seq<Id>, dht: Dht) returns (ghost keys: seq<uint8>)
    requires |shares| <= |locations|
    modifies dht
    ensures Listing(shares, keys)
    ensures dht.store == Scatter(old(dht.store), locations, shares, keys, |keys|)
  {
    hide AsByte;
    var nodeIndex := 0;
    var remaining := shares.Keys;
    keys := [];
    while remaining != {}
      invariant nodeIndex == |keys| && nodeIndex + |remaining| == |shares| && remaining <= shares.Keys
      invariant Distinct(keys) && forall j | 0 <= j < |keys| :: keys[j] in shares && keys[j] !in remaining
      invariant dht.store == Scatter(old(dht.store), locations, shares, keys, |keys|)
      decreases remaining
    {
      var h :| h in remaining;
      ScatterPrefix(old(dht.store), locations, shares, keys, h, nodeIndex);
      var all := Frame(h, shares[h]);
      dht.IterativeStore(locations[nodeIndex], all);
      nodeIndex := nodeIndex + 1;
      remaining := remaining - {h};
      keys := keys + [h];
    }
  }

  // None is the panic on a key of a length that AES does not take.
  method Encrypt(cipher: Cipher, key: seq<byte>, iv: seq<byte>, text: seq<byte>) returns (r: Option<array<byte>>)
    requires cipher.Valid() && |iv| == BLOCK_SIZE
    ensures r.Some? <==> IsAesKey(key)
    ensures r.Some? ==> fresh(r.value) && r.value[..] == iv + cipher.encrypt(key, iv, text)
  {
    if !IsAesKey(key) {
      return None;
    }
    var all := iv + cipher.encrypt(key, iv, text);
    var ciphertext := new byte[|all|](i requires 0 <= i < |all| => all[i]);
    return Some(ciphertext);
  }

  // The whole of VanishData, with its random choices as parameters. The error of Split is ignored: then no
  // share is stored.
  method VanishData(data: seq<byte>, numberKeys: uint8, threshold: uint8, cryptoKey: seq<byte>, iv: seq<byte>,
                    accessKey: int, rand: Reader, dht: Dht, cipher: Cipher, locator: Locator)
    returns (vdo: Vdo, ghost shares: Shares, ghost keys: seq<uint8>)
    requires cipher.Valid() && locator.Valid() && |cryptoKey| == 32 && |iv| == BLOCK_SIZE
    requires Ends(numberKeys, threshold, cryptoKey, rand.rest)
    modifies rand, dht
    ensures fresh(vdo.ciphertext) && vdo.ciphertext[..] == iv + cipher.encrypt(cryptoKey, iv, data)
    ensures vdo.accessKey == accessKey && vdo.numberKeys == numberKeys && vdo.threshold == threshold
    ensures numberKeys <= 2 || threshold <= 1 || Polynomials(threshold - 1, cryptoKey, old(rand.rest)).OutOfBytes?
            ==> shares == map[]
    ensures numberKeys > 2 && threshold > 1 && Polynomials(threshold - 1, cryptoKey, old(rand.rest)).Drawn?
            ==> IsSplit(numberKeys, threshold, cryptoKey, old(rand.rest), shares)
    ensures Listing(shares, keys) && |keys| <= |locator.locate(accessKey, numberKeys)|
    ensures dht.store == Scatter(old(dht.store), locator.locate(accessKey, numberKeys), shares, keys, |keys|)
  {
    hide IsShareMap, Polynomials, Scatter, Ends;
    var ciphertext := Encrypt(cipher, cryptoKey, iv, data);
    var split := Split(numberKeys, threshold, cryptoKey, rand);
    var shareMap: Shares := map[];
    if split.Ok? {
      shareMap := split.value;
      ShareMapSize(shareMap, numberKeys, Polynomials(threshold - 1, cryptoKey, old(rand.rest)).polys);
    }
    shares := shareMap;
    assert locator.Draws(accessKey, numberKeys);
    keys := ScatterShares(shareMap, locator.locate(accessKey, numberKeys), dht);
    vdo := Vdo(accessKey, ciphertext.value, numberKeys, threshold);
  }

  lemma {:induction false} ScatterPrefix(store: map<Id, seq<byte>>, locations: seq<Id>, shares: Shares,
      keys: seq<uint8>, h: uint8, n: nat)
    requires n <= |keys| && n <= |locations| && h in shares && forall j | 0 <= j < |keys| :: keys[j] in shares
    ensures Scatter(store, locations, shares, keys + [h], n) == Scatter(store, locations, shares, keys, n)
    decreases n
  {
    if n > 0 {
      ScatterPrefix(store, locations, shares, keys, h, n - 1);
    }
  }

  ghost function Numbers(n: uint8): (s: set<uint8>)
    ensures |s| == n && forall h: uint8 :: h in s <==> 1 <= h <= n
  {
    if n == 0 then {} else Numbers(n - 1) + {n}
  }

  lemma ShareMapSize(shares: Shares, n: uint8, polys: seq<seq<byte>>)
    requires IsShareMap(shares, n, polys)
    ensures |shares| <= n
  {
    SubsetSize(shares.Keys, Numbers(n));
  }

  // ---------- Gathering ----------

  // The share map after reading the first n locations: reading stops for good once it has `threshold` entries.
  ghost function Gather(store: map<Id, seq<byte>>, locations: seq<Id>, threshold: uint8, n: nat): Shares
    requires n <= |locations| && forall j | 0 <= j < n :: locations[j] in store && store[locations[j]] != []
  {
    if n == 0 then map[] else
      var m := Gather(store, locations, threshold, n - 1);
      if n > 1 && |m| == threshold then m
      else
        var content := store[locations[n - 1]];
        m[content[0] as int := content[1..]]
  }

  lemma {:induction false} GatherStops(store: map<Id, seq<byte>>, locations: seq<Id>, threshold: uint8, n: nat, m: nat)
    requires 1 <= n <= m <= |locations| && forall j | 0 <= j < m :: locations[j] in store && store[locations[j]] != []
    requires |Gather(store, locations, threshold, n)| == threshold
    ensures Gather(store, locations, threshold, m) == Gather(store, locations, threshold, n)
    decreases m
  {
    if n < m {
      GatherStops(store, locations, threshold, n, m - 1);
    }
  }

  ghost predicate AllStored(store: map<Id, seq<byte>>, locations: seq<Id>) {
    forall j | 0 <= j < |locations| :: locations[j] in store && store[locations[j]] != []
  }

  // The loop over the locations, which stops as soon as there are `threshold` entries; a location that holds
  // nothing makes content[0] panic. It has read n locations when it ends.
  method GatherShares(locations: seq<Id>, threshold: uint8, dht: Dht) returns (ok: bool, shares: Shares, ghost n: nat)
    ensures n <= |locations| && AllStored(dht.store, locations[..n])
    ensures shares == Gather(dht.store, locations, threshold, n)
    ensures ok ==> n == |locations| || (n > 0 && |shares| == threshold)
    ensures !ok ==> n < |locations| && !AllStored(dht.store, locations[..n + 1]) && (n == 0 || |shares| != threshold)
  {
    shares := map[];
    n := 0;
    for i := 0 to |locations|
      invariant n == i && AllStored(dht.store, locations[..n])
      invariant shares == Gather(dht.store, locations, threshold, n)
      invariant i > 0 ==> |shares| != threshold
    {
      var content := dht.IterativeFindValue(locations[i]);
      if content == [] {
        assert locations[..n + 1][n] == locations[i];
        return false, shares, n;
      }
      assert locations[..n + 1] == locations[..n] + [locations[n]];
      shares := shares[content[0] as int := content[1..]];
      n := n + 1;
      if |shares| == threshold {
        return true, shares, n;
      }
    }
    ok := true;
  }

  // ---------- What the locations hold after scattering ----------

  // The last of the first n locations that is l: later writes overwrite earlier ones.
  ghost function LastAt(locations: seq<Id>, l: Id, n: nat): (b: nat)
    requires n <= |locations| && l in locations[..n]
    ensures b < n && locations[b] == l
  {
    if locations[n - 1] == l then n - 1 else LastAt(locations, l, n - 1)
  }

  lemma {:induction false} ScatterContent(store: map<Id, seq<byte>>, locations: seq<Id>, shares: Shares,
      keys: seq<uint8>, l: Id, n: nat)
    requires n <= |keys| && n <= |locations| && forall j | 0 <= j < |keys| :: keys[j] in shares
    requires l in locations[..n]
    ensures var h := keys[LastAt(locations, l, n)];
            && l in Scatter(store, locations, shares, keys, n)
            && Scatter(store, locations, shares, keys, n)[l] == Frame(h, shares[h])
    decreases n
  {
    hide AsByte;
    if locations[n - 1] != l {
      ScatterContent(store, locations, shares, keys, l, n - 1);
    }
  }

  // Nothing else in the store changes.
  lemma {:induction false} ScatterKeepsOthers(store: map<Id, seq<byte>>, locations: seq<Id>, shares: Shares,
                                              keys: seq<uint8>, l: Id, n: nat)
    requires n <= |keys| && n <= |locations| && forall j | 0 <= j < |keys| :: keys[j] in shares
    requires l !in locations[..n]
    ensures var after := Scatter(store, locations, shares, keys, n);
            (l in after <==> l in store) && (l in store ==> after[l] == store[l])
    decreases n
  {
    if n > 0 {
      assert locations[n - 1] in locations[..n];
      ScatterKeepsOthers(store, locations, shares, keys, l, n - 1);
    }
  }

  // Of n contents, number i is the last with the holder's number.
  ghost predicate LastOf(store: map<Id, seq<byte>>, locations: seq<Id>, n: nat, h: uint8, i: int)
    requires n <= |locations| && forall j | 0 <= j < n :: locations[j] in store && store[locations[j]] != []
  {
    && 0 <= i < n && store[locations[i]][0] as int == h
    && forall j | i < j < n :: store[locations[j]][0] as int != h
  }

  // Whatever the store holds: until the threshold is met, the shares gathered are the last ones read for each holder.
  lemma {:induction false} GatheredAreLastRead(store: map<Id, seq<byte>>, locations: seq<Id>, threshold: uint8, n: nat,
                                               h: uint8)
    requires n <= |locations| && forall j | 0 <= j < n :: locations[j] in store && store[locations[j]] != []
    requires forall i | 1 <= i < n :: |Gather(store, locations, threshold, i)| != threshold
    ensures var shares := Gather(store, locations, threshold, n);
            if h in shares then exists i :: LastOf(store, locations, n, h, i) && shares[h] == store[locations[i]][1..]
            else forall i | 0 <= i < n :: store[locations[i]][0] as int != h
    decreases n
  {
    if n > 0 {
      GatheredAreLastRead(store, locations, threshold, n - 1, h);
      var m := Gather(store, locations, threshold, n - 1);
      var content := store[locations[n - 1]];
      if content[0] as int == h {
        assert LastOf(store, locations, n, h, n - 1);
      } else if h in m {
        var i :| LastOf(store, locations, n - 1, h, i) && m[h] == store[locations[i]][1..];
        assert LastOf(store, locations, n, h, i);
      }
    }
  }

  // Every location holds a share, and which one depends on the location alone.
  ghost predicate Holds(store: map<Id, seq<byte>>, locations: seq<Id>, shares: Shares, holder: map<Id, uint8>) {
    && (forall l: Id | l in locations ::
          && l in holder && holder[l] in shares
          && l in store && store[l] == Frame(holder[l], shares[holder[l]]) && store[l] != [])
    && (forall l: Id, l': Id | l in locations && l' in locations && l != l' :: holder[l] != holder[l'])
  }

  lemma ScatterHolds(store: map<Id, seq<byte>>, locations: seq<Id>, shares: Shares, keys: seq<uint8>)
    returns (holder: map<Id, uint8>)
    requires Listing(shares, keys) && |keys| == |locations|
    ensures Holds(Scatter(store, locations, shares, keys, |keys|), locations, shares, holder)
  {
    hide AsByte;
    var n := |locations|;
    assert locations[..n] == locations;
    holder := map l: Id | l in locations :: keys[LastAt(locations, l, n)];
    forall l: Id | l in locations
      ensures var s := Scatter(store, locations, shares, keys, n);
              l in s && s[l] == Frame(holder[l], shares[holder[l]])
    {
      ScatterContent(store, locations, shares, keys, l, n);
    }
  }

  ghost function Locations(locations: seq<Id>): set<Id> {
    set l | l in locations
  }

  // A selection of the shares, one for each location read so far, up to the threshold.
  ghost predicate Collected(m: Shares, read: set<Id>, shares: Shares, holder: map<Id, uint8>, threshold: uint8) {
    && IsSelection(m, shares)
    && |m| == (if |read| < threshold then |read| else threshold)
    && (forall l: Id | l in read :: l in holder)
    && (|m| < threshold ==> m.Keys == Holders(read, holder))
  }

  ghost function Holders(read: set<Id>, holder: map<Id, uint8>): set<uint8>
    requires forall l: Id | l in read :: l in holder
  {
    set l | l in read :: holder[l]
  }

  lemma HoldersMore(read: set<Id>, l: Id, holder: map<Id, uint8>)
    requires l in holder && forall l': Id | l' in read :: l' in holder
    ensures Holders(read + {l}, holder) == Holders(read, holder) + {holder[l]}
  {
  }

  lemma CollectOld(m: Shares, read: set<Id>, l: Id, shares: Shares, holder: map<Id, uint8>, threshold: uint8)
    requires Collected(m, read, shares, holder, threshold) && |m| < threshold && l in read
    ensures holder[l] in m && m[holder[l] := shares[holder[l]]] == m
  {
    assert holder[l] in m.Keys;
  }

  lemma SelectionMore(m: Shares, shares: Shares, h: uint8)
    requires IsSelection(m, shares) && h in shares
    ensures IsSelection(m[h := shares[h]], shares)
  {
  }

  lemma MapGrows(m: Shares, h: uint8, share: seq<byte>)
    requires h !in m.Keys
    ensures |m[h := share]| == |m| + 1 && m[h := share].Keys == m.Keys + {h}
  {
  }

  lemma CollectNew(m: Shares, read: set<Id>, l: Id, shares: Shares, holder: map<Id, uint8>, threshold: uint8)
    requires Collected(m, read, shares, holder, threshold) && |m| < threshold && l !in read
    requires l in holder && holder[l] in shares && forall l': Id | l' in read :: holder[l'] != holder[l]
    ensures Collected(m[holder[l] := shares[holder[l]]], read + {l}, shares, holder, threshold)
  {
    hide Holders, IsSelection;
    var h := holder[l];
    var m' := m[h := shares[h]];
    NotHeldYet(read, l, holder);
    MapGrows(m, h, shares[h]);
    assert IsSelection(m', shares) by { SelectionMore(m, shares, h); }
    assert m'.Keys == Holders(read + {l}, holder) by { HoldersMore(read, l, holder); }
    assert |read + {l}| == |read| + 1;
  }

  lemma NotHeldYet(read: set<Id>, l: Id, holder: map<Id, uint8>)
    requires l in holder && forall l': Id | l' in read :: l' in holder && holder[l'] != holder[l]
    ensures holder[l] !in Holders(read, holder)
  {
  }

  lemma FrameParts(h: uint8, share: seq<byte>)
    ensures Frame(h, share)[0] as int == h && Frame(h, share)[1..] == share
  {
    AsByteOf(h);
  }

  // Reading a store that holds the shares collects them.
  lemma {:induction false} GatherCollects(store: map<Id, seq<byte>>, locations: seq<Id>, shares: Shares,
                                          holder: map<Id, uint8>, threshold: uint8, n: nat)
    requires threshold >= 1 && n <= |locations| && Holds(store, locations, shares, holder)
    ensures Collected(Gather(store, locations, threshold, n), Locations(locations[..n]), shares, holder, threshold)
    decreases n
  {
    hide AsByte, Frame, Collected;
    if n == 0 {
      assert Collected(map[], {}, shares, holder, threshold) by {
        CollectedEmpty(shares, holder, threshold);
      }
      assert Locations(locations[..0]) == {};
    } else {
      GatherCollects(store, locations, shares, holder, threshold, n - 1);
      var m, l, read := Gather(store, locations, threshold, n - 1), locations[n - 1], Locations(locations[..n - 1]);
      assert locations[..n] == locations[..n - 1] + [l];
      assert Locations(locations[..n]) == read + {l};
      CollectedSize(m, read, l, shares, holder, threshold);
      if |m| < threshold {
        FrameParts(holder[l], shares[holder[l]]);
        if l in read {
          CollectOld(m, read, l, shares, holder, threshold);
          assert read + {l} == read;
        } else {
          CollectNew(m, read, l, shares, holder, threshold);
        }
      }
    }
  }

  lemma CollectedEmpty(shares: Shares, holder: map<Id, uint8>, threshold: uint8)
    requires threshold >= 1
    ensures Collected(map[], {}, shares, holder, threshold)
  {
  }

  lemma CollectedSize(m: Shares, read: set<Id>, l: Id, shares: Shares, holder: map<Id, uint8>, threshold: uint8)
    requires Collected(m, read, shares, holder, threshold) && l in holder
    ensures |m| <= threshold
    ensures |m| == threshold ==> Collected(m, read + {l}, shares, holder, threshold)
    ensures |m| == threshold && threshold >= 1 ==> read != {}
  {
    SubsetSize(read, read + {l});
  }

  // ---------- Unvanishing ----------

  // In place, as the program does it: the text overwrites the ciphertext behind the initialisation vector.
  method Decrypt(cipher: Cipher, key: seq<byte>, ciphertext: array<byte>) returns (r: Outcome)
    requires cipher.Valid()
    modifies ciphertext
    ensures !IsAesKey(key) || ciphertext.Length < BLOCK_SIZE ==> r == Panic && ciphertext[..] == old(ciphertext[..])
    ensures IsAesKey(key) && ciphertext.Length >= BLOCK_SIZE ==>
              && r == Data(cipher.decrypt(key, old(ciphertext[..BLOCK_SIZE]), old(ciphertext[BLOCK_SIZE..])))
              && ciphertext[..] == old(ciphertext[..BLOCK_SIZE]) + r.bytes
  {
    if !IsAesKey(key) || ciphertext.Length < BLOCK_SIZE {
      return Panic;
    }
    var iv, body := ciphertext[..BLOCK_SIZE], ciphertext[BLOCK_SIZE..];
    var text := cipher.decrypt(key, iv, body);
    assert cipher.KeepsLength(key, iv, body);
    forall i | 0 <= i < |text| {
      ciphertext[BLOCK_SIZE + i] := text[i];
    }
    return Data(text);
  }

  // Panics when a location holds nothing, when a gathered share is shorter than the one Combine meets first, and
  // when the combined key or the ciphertext has a length that decryption does not take.
  method UnvanishData(vdo: Vdo, dht: Dht, cipher: Cipher, locator: Locator)
    returns (r: Outcome, ghost shares: Shares, ghost n: nat, ghost key: Combined)
    requires cipher.Valid()
    modifies vdo.ciphertext
    ensures var l := locator.locate(vdo.accessKey, vdo.numberKeys);
            && n <= |l| && AllStored(dht.store, l[..n]) && shares == Gather(dht.store, l, vdo.threshold, n)
            && if n == |l| || (n > 0 && |shares| == vdo.threshold) then
                 match key
                 case IndexFault => r == Panic && !SameLength(shares)
                 case Combination(secret) =>
                   && IsCombination(shares, secret)
                   && r == (if !IsAesKey(secret) || vdo.ciphertext.Length < BLOCK_SIZE then Panic
                            else Data(cipher.decrypt(secret, old(vdo.ciphertext[..BLOCK_SIZE]),
                                old(vdo.ciphertext[BLOCK_SIZE..]))))
               else r == Panic && !AllStored(dht.store, l[..n + 1])
  {
    hide IsCombination, Gather;
    var locations := locator.locate(vdo.accessKey, vdo.numberKeys);
    var ok, sssMap;
    ok, sssMap, n := GatherShares(locations, vdo.threshold, dht);
    shares, key := sssMap, IndexFault;
    if !ok {
      return Panic, shares, n, key;
    }
    var cryptoKey, first := Combine(sssMap);
    key := cryptoKey;
    if cryptoKey.IndexFault? {
      return Panic, shares, n, key;
    }
    r := Decrypt(cipher, cryptoKey.secret, vdo.ciphertext);
  }

  // ---------- The round trip ----------

  // What the locations give back after VanishData: a selection of the shares, one for each distinct location,
  // up to the threshold; and nothing else is missing.
  lemma ScatteredIsGathered(store: map<Id, seq<byte>>, locations: seq<Id>, shares: Shares, keys: seq<uint8>,
      threshold: uint8, n: nat)
    requires threshold >= 1 && Listing(shares, keys) && |keys| == |locations| && n <= |locations|
    ensures var after := Scatter(store, locations, shares, keys, |keys|);
            && AllStored(after, locations)
            && IsSelection(Gather(after, locations, threshold, n), shares)
            && (n == |locations| || |Gather(after, locations, threshold, n)| == threshold ==>
                  |Gather(after, locations, threshold, n)|
                  == (if |Locations(locations)| < threshold then |Locations(locations)| else threshold))
  {
    hide Scatter, Gather;
    var after := Scatter(store, locations, shares, keys, |keys|);
    var holder := ScatterHolds(store, locations, shares, keys);
    GatherCollects(after, locations, shares, holder, threshold, n);
    assert locations[..|locations|] == locations;
    SubsetSize(Locations(locations[..n]), Locations(locations));
  }

  lemma ShareMapIsFull(shares: Shares, n: uint8, polys: seq<seq<byte>>)
    requires IsShareMap(shares, n, polys) && polys != []
    ensures |shares| == n
  {
    assert shares.Keys == Numbers(n);
  }

  lemma SelectionSameLength(some: Shares, shares: Shares, n: uint8, polys: seq<seq<byte>>)
    requires IsShareMap(shares, n, polys) && IsSelection(some, shares)
    ensures SameLength(some)
  {
  }

  // Vanishing data and unvanishing the object gives the data back, in every order of iteration over the shares,
  // when at least `threshold` of the locations differ.
  method VanishThenUnvanish(data: seq<byte>, numberKeys: uint8, threshold: uint8, cryptoKey: seq<byte>, iv: seq<byte>,
                            accessKey: int, rand: Reader, dht: Dht, cipher: Cipher, locator: Locator)
    returns (r: Outcome)
    requires cipher.Valid() && locator.Valid() && |cryptoKey| == 32 && |iv| == BLOCK_SIZE
    requires 3 <= numberKeys < 255 && 2 <= threshold <= numberKeys
    requires Polynomials(threshold - 1, cryptoKey, rand.rest).Drawn?
    requires |Locations(locator.locate(accessKey, numberKeys))| >= threshold
    modifies rand, dht
    ensures r == Data(data)
  {
    hide Polynomials, Gather, Scatter, IsCombination, IsShareMap, IsSelection, SameLength, Locations;
    var locations := locator.locate(accessKey, numberKeys);
    assert locator.Draws(accessKey, numberKeys);
    ghost var stream, store := rand.rest, dht.store;
    ghost var polys := Polynomials(threshold - 1, cryptoKey, stream).polys;
    var vdo, shares, keys := VanishData(data, numberKeys, threshold, cryptoKey, iv, accessKey, rand, dht, cipher,
        locator);
    PolynomialsShape(threshold, cryptoKey, stream);
    ShareMapIsFull(shares, numberKeys, polys);
    assert cipher.KeepsLength(cryptoKey, iv, data) && cipher.Inverts(cryptoKey, iv, data);
    ghost var some, n, key;
    r, some, n, key := UnvanishData(vdo, dht, cipher, locator);
    ScatteredIsGathered(store, locations, shares, keys, threshold, n);
    SelectionSameLength(some, shares, numberKeys, polys);
    CombineRecovers(numberKeys, threshold, cryptoKey, stream, shares, some, key.secret);
  }

  // One distinct location short of the threshold, the key that comes back is wrong in every byte.
  lemma TooFewLocations(store: map<Id, seq<byte>>, locations: seq<Id>, shares: Shares, keys: seq<uint8>,
                        threshold: uint8, cryptoKey: seq<byte>, stream: seq<byte>, key: seq<byte>)
    requires threshold >= 2 && Listing(shares, keys) && |keys| == |locations|
    requires |locations| < 256 && IsSplit(|locations|, threshold, cryptoKey, stream, shares)
    requires |Locations(locations)| == threshold - 1
    requires var after := Scatter(store, locations, shares, keys, |keys|);
             AllStored(after, locations) && IsCombination(Gather(after, locations, threshold, |locations|), key)
    ensures |key| == |cryptoKey| && forall i | 0 <= i < |key| :: key[i] != cryptoKey[i]
  {
    hide IsSplit, Gather, Scatter, IsCombination, IsSelection, Locations;
    var after := Scatter(store, locations, shares, keys, |keys|);
    ScatteredIsGathered(store, locations, shares, keys, threshold, |locations|);
    CombineMisses(|locations|, threshold, cryptoKey, stream, shares,
        Gather(after, locations, threshold, |locations|), key);
  }
}
