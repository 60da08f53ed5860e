/** Signatures with cached signing keys: packages/core/src/aws/signature.ts. */
module SigningCache {
  import opened OrderedSets
  import opened Texts

  type Key = seq<int>

  /** The cryptographic primitives: any deterministic functions. */
  datatype Crypto = Crypto(hmacText: (string, string) -> Key, hmac: (Key, string) -> Key, hex: Key -> string)

  datatype Params = Params(secret: string, date: string, region: string, service: string)

  const MAX_CACHE_SIZE := 100

  function Derive(crypto: Crypto, p: Params): Key {
    var kDate := crypto.hmacText("AWS4" + p.secret, p.date);
    var kRegion := crypto.hmac(kDate, p.region);
    var kService := crypto.hmac(kRegion, p.service);
    crypto.hmac(kService, "aws4_request")
  }

  function Sign(crypto: Crypto, key: Key, stringToSign: string): string {
    crypto.hex(crypto.hmac(key, stringToSign))
  }

  /** The signature without any cache. */
  function Direct(crypto: Crypto, p: Params, stringToSign: string): string {
    Sign(crypto, Derive(crypto, p), stringToSign)
  }

  // ---------- What a signature is made of ----------

  /** Texts as numbers, each text with an end mark. */
  function Coded(text: string): Key {
    seq(|text|, i requires 0 <= i < |text| => text[i] as int) + [-1]
  }

  function Rendered(key: Key): string {
    if key == [] then ""
    else
      (if 0 <= key[0] < 0xD800 || 0xE000 <= key[0] < 0x110000 then ['+', key[0] as char] else "|")
      + Rendered(key[1..])
  }

  /** Primitives that write down, in order, all the texts they are given. */
  function Recording(): Crypto {
    Crypto(
      (secret: string, text: string) => Coded(secret) + Coded(text),
      (key: Key, text: string) => key + Coded(text),
      (key: Key) => Rendered(key))
  }

  /** The texts written down: behind `+` stands a character, `|` ends a text. */
  function TextsIn(record: string): seq<string> {
    if record == "" then []
    else if record[0] == '+' && |record| > 1 then
      var rest := TextsIn(record[2..]);
      if rest == [] then [[record[1]]] else [[record[1]] + rest[0]] + rest[1..]
    else [""] + TextsIn(record[1..])
  }

  lemma {:induction false} RenderedConcat(a: Key, b: Key)
    ensures Rendered(a + b) == Rendered(a) + Rendered(b)
  {
    if a == [] {
      assert a + b == b;
    } else {
      assert (a + b)[1..] == a[1..] + b;
      RenderedConcat(a[1..], b);
    }
  }

  lemma {:induction false} CodedReads(text: string, rest: string)
    ensures TextsIn(Rendered(Coded(text)) + rest) == [text] + TextsIn(rest)
    decreases |text|
  {
    var record := Rendered(Coded(text)) + rest;
    if text == "" {
      assert Coded(text) == [-1] && Rendered([-1][1..]) == "";
      assert record == "|" + rest && record[1..] == rest;
    } else {
      var below := Rendered(Coded(text[1..])) + rest;
      CodedReads(text[1..], rest);
      assert Coded(text)[1..] == Coded(text[1..]);
      assert record == ['+', text[0]] + below && record[2..] == below;
      assert [text[0]] + text[1..] == text;
      assert ([text[1..]] + TextsIn(rest))[1..] == TextsIn(rest);
    }
  }

  lemma CodedThenMore(text: string, key: Key)
    ensures TextsIn(Rendered(Coded(text) + key)) == [text] + TextsIn(Rendered(key))
  {
    RenderedConcat(Coded(text), key);
    CodedReads(text, Rendered(key));
  }

  /** Six texts, in this order, go into a signature. */
  lemma SignatureRecords(p: Params, stringToSign: string)
    ensures TextsIn(Direct(Recording(), p, stringToSign)) ==
      ["AWS4" + p.secret, p.date, p.region, p.service, "aws4_request", stringToSign]
  {
    hide Coded, Rendered, TextsIn;
    var a, b, c, d := Coded("AWS4" + p.secret), Coded(p.date), Coded(p.region), Coded(p.service);
    var e, f := Coded("aws4_request"), Coded(stringToSign);
    assert Direct(Recording(), p, stringToSign) == Rendered(a + b + c + d + e + f);
    assert a + b + c + d + e + f == a + (b + (c + (d + (e + (f + [])))));
    CodedThenMore("AWS4" + p.secret, b + (c + (d + (e + (f + [])))));
    CodedThenMore(p.date, c + (d + (e + (f + []))));
    CodedThenMore(p.region, d + (e + (f + [])));
    CodedThenMore(p.service, e + (f + []));
    CodedThenMore("aws4_request", f + []);
    CodedThenMore(stringToSign, []);
    NoRecord();
  }

  lemma SignatureSteps(crypto: Crypto, p: Params, stringToSign: string)
    ensures Direct(crypto, p, stringToSign) == crypto.hex(crypto.hmac(
              crypto.hmac(crypto.hmac(crypto.hmac(crypto.hmacText("AWS4" + p.secret, p.date), p.region), p.service),
                          "aws4_request"), stringToSign))
    ensures forall q :: Direct(crypto, q, stringToSign) == Sign(crypto, Derive(crypto, q), stringToSign)
  {}

  lemma NoRecord()
    ensures TextsIn(Rendered([])) == []
  {}

  function CacheKey(p: Params): string {
    p.secret + ":" + p.date + ":" + p.region + ":" + p.service
  }

  /** Date, region and service hold no colon; the secret may. */
  predicate ColonFree(p: Params) {
    ':' !in p.date && ':' !in p.region && ':' !in p.service
  }

  lemma LastColon(a: string, b: string, x: string, y: string)
    requires a + ":" + x == b + ":" + y && ':' !in x && ':' !in y
    ensures a == b && x == y
  {
    var s := a + ":" + x;
    NoColonBehind(a, x);
    NoColonBehind(b, y);
    assert s[|a|] == ':' == s[|b|];
    assert a == s[..|a|] && b == s[..|b|] && x == s[|a| + 1..] && y == s[|b| + 1..];
  }

  lemma NoColonBehind(a: string, x: string)
    requires ':' !in x
    ensures var s := a + ":" + x; s[|a|] == ':' && forall i | |a| < i < |s| :: s[i] != ':'
  {
    var s := a + ":" + x;
    forall i | |a| < i < |s|
      ensures s[i] != ':'
    {
      assert s[i] == x[i - |a| - 1];
    }
  }

  /** Without colons in the three, a cache key stands for one set of parameters. */
  lemma CacheKeyTellsApart(p: Params, q: Params)
    requires ColonFree(p) && ColonFree(q) && CacheKey(p) == CacheKey(q)
    ensures p == q
  {
    LastColon(p.secret + ":" + p.date + ":" + p.region, q.secret + ":" + q.date + ":" + q.region, p.service, q.service);
    LastColon(p.secret + ":" + p.date, q.secret + ":" + q.date, p.region, q.region);
    LastColon(p.secret, q.secret, p.date, q.date);
  }

  /** The key is made of the secret, the date, the region and the service, in this order. */
  lemma CacheKeyPieces(p: Params)
    requires AllColonFree(p)
    ensures Pieces(CacheKey(p), ':') == [p.secret, p.date, p.region, p.service]
  {
    hide Pieces;
    assert CacheKey(p) == p.secret + ":" + (p.date + ":" + (p.region + ":" + p.service));
    FirstPiece(p.secret, ':', p.date + ":" + (p.region + ":" + p.service));
    FirstPiece(p.date, ':', p.region + ":" + p.service);
    FirstPiece(p.region, ':', p.service);
    FirstPiece(p.service, ':', "");
  }

  function Colons(s: string): nat {
    if s == "" then 0 else Colons(s[1..]) + if s[0] == ':' then 1 else 0
  }

  lemma {:induction false} ColonsConcat(a: string, b: string)
    ensures Colons(a + b) == Colons(a) + Colons(b)
  {
    if a == "" {
      assert a + b == b;
    } else {
      ColonsConcat(a[1..], b);
      assert (a + b)[1..] == a[1..] + b;
    }
  }

  lemma {:induction false} NoColons(s: string)
    ensures Colons(s) == 0 <==> ':' !in s
  {
    if s != "" {
      NoColons(s[1..]);
      assert s == [s[0]] + s[1..];
    }
  }

  /** A cache key has the three colons that separate, and those of the four parts. */
  lemma KeyColons(p: Params)
    ensures Colons(CacheKey(p)) == 3 + Colons(p.secret) + Colons(p.date) + Colons(p.region) + Colons(p.service)
  {
    assert Colons(":") == 1 by { assert ":"[1..] == ""; }
    ColonsConcat(p.secret, ":");
    ColonsConcat(p.secret + ":", p.date);
    ColonsConcat(p.secret + ":" + p.date, ":");
    ColonsConcat(p.secret + ":" + p.date + ":", p.region);
    ColonsConcat(p.secret + ":" + p.date + ":" + p.region, ":");
    ColonsConcat(p.secret + ":" + p.date + ":" + p.region + ":", p.service);
  }

  predicate AllColonFree(p: Params) {
    ':' !in p.secret && ColonFree(p)
  }

  /** A cache key stands for one set of parameters exactly if none of them has a colon in it. */
  lemma CacheKeyIsUnique(p: Params)
    ensures (forall q :: CacheKey(q) == CacheKey(p) ==> q == p) <==> AllColonFree(p)
  {
    if AllColonFree(p) {
      forall q | CacheKey(q) == CacheKey(p)
        ensures q == p
      {
        SameColons(p, q);
        CacheKeyTellsApart(p, q);
      }
    } else {
      var _, q := CacheKeysCanCollide(p);
    }
  }

  lemma SameColons(p: Params, q: Params)
    requires AllColonFree(p) && CacheKey(q) == CacheKey(p)
    ensures ColonFree(q)
  {
    hide CacheKey, Colons;
    KeyColons(p);
    KeyColons(q);
    NoColons(p.secret);
    NoColons(p.date);
    NoColons(p.region);
    NoColons(p.service);
    NoColons(q.date);
    NoColons(q.region);
    NoColons(q.service);
  }

  lemma AtColon(s: string) returns (a: string, b: string)
    requires ':' in s
    ensures s == a + ":" + b && |s| == |a| + 1 + |b|
  {
    var i :| 0 <= i < |s| && s[i] == ':';
    a, b := s[..i], s[i + 1..];
  }

  /** Whoever has a colon shares the cache key with others who sign differently: any colon may separate. */
  lemma CacheKeysCanCollide(p: Params) returns (crypto: Crypto, q: Params)
    requires !AllColonFree(p)
    ensures CacheKey(q) == CacheKey(p) && q != p && Derive(crypto, q) != Derive(crypto, p)
  {
    crypto := Lengths();
    if ':' in p.service {
      var a, b := AtColon(p.service);
      q := Params(p.secret, p.date, p.region + ":" + a, b);
      assert CacheKey(q) == CacheKey(p);
    } else if ':' in p.region {
      var a, b := AtColon(p.region);
      q := Params(p.secret, p.date + ":" + a, b, p.service);
      assert CacheKey(q) == CacheKey(p);
    } else if ':' in p.date {
      var a, b := AtColon(p.date);
      q := Params(p.secret + ":" + a, b, p.region, p.service);
      assert CacheKey(q) == CacheKey(p);
    } else {
      var a, b := AtColon(p.secret);
      q := Params(a, b + ":" + p.date, p.region, p.service);
      assert CacheKey(q) == CacheKey(p);
    }
    DerivesLengths(p);
    DerivesLengths(q);
  }

  /** Primitives that tell texts apart by their lengths. */
  function Lengths(): Crypto {
    Crypto(
      (secret: string, text: string) => [|secret|, |text|],
      (key: Key, text: string) => key + [|text|],
      (key: Key) => "")
  }

  lemma DerivesLengths(p: Params)
    ensures Derive(Lengths(), p)[..4] == [4 + |p.secret|, |p.date|, |p.region|, |p.service|]
  {}

  /** A JavaScript `Map`: entries with their keys in insertion order. */
  datatype Cache = Cache(keys: seq<string>, entries: map<string, Key>) {
    ghost predicate Valid() {
      NoDup(keys) && forall k :: k in keys <==> k in entries
    }
  }

  function Empty(): (c: Cache)
    ensures c.Valid()
  {
    Cache([], map[])
  }

  /** A new key goes last; when the cache is full the oldest one makes room. */
  function Stored(c: Cache, k: string, v: Key): (c': Cache)
    requires c.Valid()
    ensures c'.Valid()
    ensures k in c'.entries && c'.entries[k] == v
    ensures forall x | x in c'.entries && x != k :: x in c.entries && c'.entries[x] == c.entries[x]
  {
    var roomy :=
      if |c.keys| >= MAX_CACHE_SIZE && c.keys[0] != "" then Cache(c.keys[1..], c.entries - {c.keys[0]}) else c;
    Cache(Add(roomy.keys, k), roomy.entries[k := v])
  }

  /** A full cache does not grow, as long as its keys are not empty. */
  lemma StoringIsBounded(c: Cache, k: string, v: Key)
    requires c.Valid() && |c.keys| <= MAX_CACHE_SIZE && "" !in c.keys
    ensures |Stored(c, k, v).keys| <= MAX_CACHE_SIZE
    ensures k != "" ==> "" !in Stored(c, k, v).keys
  {}

  /** Up to a hundred entries nothing is forgotten; then it is the oldest one. */
  lemma StoringForgetsTheOldest(c: Cache, k: string, v: Key)
    requires c.Valid() && k !in c.keys && "" !in c.keys
    ensures |c.keys| < 100 ==> Stored(c, k, v) == Cache(c.keys + [k], c.entries[k := v])
    ensures |c.keys| >= 100 ==> Stored(c, k, v) == Cache(c.keys[1..] + [k], (c.entries - {c.keys[0]})[k := v])
  {}

  /** Every entry is the derivation for some parameters with that key; `colonFree` ones, if asked for. */
  ghost predicate Sound(c: Cache, crypto: Crypto, colonFree: bool) {
    forall k | k in c.entries ::
      exists p :: CacheKey(p) == k && c.entries[k] == Derive(crypto, p) && (colonFree ==> ColonFree(p))
  }

  lemma CacheKeyIsNotEmpty(p: Params)
    ensures CacheKey(p) != ""
  {
    assert |CacheKey(p)| >= 3;
  }

  /** Entries of a sound cache have nonempty keys, so the bound holds for them. */
  lemma SoundKeysAreNotEmpty(c: Cache, crypto: Crypto, colonFree: bool)
    requires c.Valid() && Sound(c, crypto, colonFree)
    ensures "" !in c.keys
  {
    if "" in c.keys {
      var p :| CacheKey(p) == "";
      CacheKeyIsNotEmpty(p);
      assert false;
    }
  }

  /** Storing a derivation under its key keeps the cache sound and within its bound. */
  lemma StoringStaysSound(c: Cache, crypto: Crypto, colonFree: bool, p: Params)
    requires c.Valid() && Sound(c, crypto, colonFree) && (colonFree ==> ColonFree(p))
    ensures var c' := Stored(c, CacheKey(p), Derive(crypto, p));
      Sound(c', crypto, colonFree) && (|c.keys| <= MAX_CACHE_SIZE ==> |c'.keys| <= MAX_CACHE_SIZE)
  {
    hide CacheKey, Derive, ColonFree;
    SoundKeysAreNotEmpty(c, crypto, colonFree);
    if |c.keys| <= MAX_CACHE_SIZE {
      StoringIsBounded(c, CacheKey(p), Derive(crypto, p));
    }
    var c' := Stored(c, CacheKey(p), Derive(crypto, p));
    forall k | k in c'.entries
      ensures exists q :: CacheKey(q) == k && c'.entries[k] == Derive(crypto, q) && (colonFree ==> ColonFree(q))
    {
      if k == CacheKey(p) {
        assert CacheKey(p) == k;
      } else {
        assert k in c.entries;
      }
    }
  }

  /** What a hit gives: the derivation for these parameters, or for others with the same key. */
  lemma HitIsADerivation(c: Cache, crypto: Crypto, colonFree: bool, p: Params)
    requires c.Valid() && Sound(c, crypto, colonFree) && CacheKey(p) in c.entries
    ensures exists q :: CacheKey(q) == CacheKey(p) && c.entries[CacheKey(p)] == Derive(crypto, q)
    ensures colonFree && ColonFree(p) ==> c.entries[CacheKey(p)] == Derive(crypto, p)
  {
    hide CacheKey, Derive, ColonFree;
    var q :| CacheKey(q) == CacheKey(p) && c.entries[CacheKey(p)] == Derive(crypto, q) && (colonFree ==> ColonFree(q));
    if colonFree && ColonFree(p) {
      CacheKeyTellsApart(p, q);
    }
  }

  class Signer {
    var cache: Cache

    constructor ()
      ensures cache == Empty()
    {
      cache := Empty();
    }

    /**
     The synchronous signature. Between callers that use no colons it is the one without a cache,
     and the cache never exceeds its bound; in any case it is the signature for parameters with the
     same cache key.
     */
    method CalculateSignature(crypto: Crypto, p: Params, stringToSign: string, ghost colonFree: bool)
      returns (r: string)
      requires cache.Valid() && Sound(cache, crypto, colonFree) && (colonFree ==> ColonFree(p))
      modifies this
      ensures cache.Valid() && Sound(cache, crypto, colonFree)
      ensures cache == if CacheKey(p) in old(cache).entries then old(cache)
                       else Stored(old(cache), CacheKey(p), Derive(crypto, p))
      ensures |old(cache).keys| <= MAX_CACHE_SIZE ==> |cache.keys| <= MAX_CACHE_SIZE
      ensures exists q :: CacheKey(q) == CacheKey(p) && r == Direct(crypto, q, stringToSign)
      ensures colonFree ==> r == Direct(crypto, p, stringToSign)
      // what that is made of, step by step, and with primitives that write down what they are given
      ensures colonFree ==> r == crypto.hex(crypto.hmac(
                crypto.hmac(crypto.hmac(crypto.hmac(crypto.hmacText("AWS4" + p.secret, p.date), p.region), p.service),
                            "aws4_request"), stringToSign))
      ensures colonFree && crypto == Recording() ==>
        TextsIn(r) == ["AWS4" + p.secret, p.date, p.region, p.service, "aws4_request", stringToSign]
    {
      SignatureRecords(p, stringToSign);
      SignatureSteps(crypto, p, stringToSign);
      hide CacheKey, Derive, Sound, ColonFree, TextsIn, Recording, Direct;
      var cacheKey := CacheKey(p);
      var kSigning;
      if cacheKey in cache.entries {
        HitIsADerivation(cache, crypto, colonFree, p);
        kSigning := cache.entries[cacheKey];
      } else {
        kSigning := Derive(crypto, p);
        StoringStaysSound(cache, crypto, colonFree, p);
        if |cache.keys| >= MAX_CACHE_SIZE {
          var firstKey := cache.keys[0];
          if firstKey != "" {
            cache := Cache(cache.keys[1..], cache.entries - {firstKey});
          }
        }
        cache := Cache(Add(cache.keys, cacheKey), cache.entries[cacheKey := kSigning]);
      }
      r := Sign(crypto, kSigning, stringToSign);
    }
  }

  /** Calls of the asynchronous variant, each at one of the places where it waits; `Instant` calls do not wait. */
  datatype Call =
    | Instant(p: Params, stringToSign: string)
    | Waiting(p: Params, stringToSign: string)
    | Deriving(p: Params, stringToSign: string)
    | Signing(p: Params, stringToSign: string, key: Key)
    | Done(p: Params, stringToSign: string, signature: string)

  datatype System = System(cache: Cache, calls: seq<Call>)

  /** What a call does up to its next wait. */
  function Advance(crypto: Crypto, cache: Cache, call: Call): (Cache, Call)
    requires cache.Valid()
  {
    var p, s := call.p, call.stringToSign;
    match call
    case Instant(_, _) =>
      if CacheKey(p) in cache.entries then (cache, Done(p, s, Sign(crypto, cache.entries[CacheKey(p)], s)))
      else (Stored(cache, CacheKey(p), Derive(crypto, p)), Done(p, s, Direct(crypto, p, s)))
    case Waiting(_, _) =>
      if CacheKey(p) in cache.entries then (cache, Signing(p, s, cache.entries[CacheKey(p)]))
      else (cache, Deriving(p, s))
    case Deriving(_, _) => (Stored(cache, CacheKey(p), Derive(crypto, p)), Signing(p, s, Derive(crypto, p)))
    case Signing(_, _, key) => (cache, Done(p, s, Sign(crypto, key, s)))
    case Done(_, _, _) => (cache, call)
  }

  function Step(crypto: Crypto, sys: System, i: nat): System
    requires sys.cache.Valid()
  {
    if i >= |sys.calls| then sys
    else
      var (cache, call) := Advance(crypto, sys.cache, sys.calls[i]);
      System(cache, sys.calls[i := call])
  }

  /** Any interleaving: the calls take turns as the schedule says. */
  function Run(crypto: Crypto, sys: System, schedule: seq<nat>): (r: System)
    requires sys.cache.Valid()
    ensures r.cache.Valid()
  {
    if schedule == [] then sys
    else Step(crypto, Run(crypto, sys, schedule[..|schedule| - 1]), schedule[|schedule| - 1])
  }

  ghost predicate CallRight(crypto: Crypto, call: Call) {
    && ColonFree(call.p)
    && (call.Signing? ==> call.key == Derive(crypto, call.p))
    && (call.Done? ==> call.signature == Direct(crypto, call.p, call.stringToSign))
  }

  ghost predicate SystemRight(crypto: Crypto, sys: System) {
    && sys.cache.Valid() && Sound(sys.cache, crypto, true) && |sys.cache.keys| <= MAX_CACHE_SIZE
    && forall i | 0 <= i < |sys.calls| :: CallRight(crypto, sys.calls[i])
  }

  lemma AdvanceStaysRight(crypto: Crypto, cache: Cache, call: Call)
    requires cache.Valid() && Sound(cache, crypto, true) && |cache.keys| <= MAX_CACHE_SIZE && CallRight(crypto, call)
    ensures var (cache', call') := Advance(crypto, cache, call);
      && cache'.Valid() && Sound(cache', crypto, true) && |cache'.keys| <= MAX_CACHE_SIZE && CallRight(crypto, call')
      && call'.p == call.p && call'.stringToSign == call.stringToSign
  {
    hide CacheKey, Derive, Sound, ColonFree, Sign;
    StoringStaysSound(cache, crypto, true, call.p);
    if CacheKey(call.p) in cache.entries {
      HitIsADerivation(cache, crypto, true, call.p);
    }
  }

  /** With primitives that write down what they are given, the signature of a call is the record of six texts. */
  ghost predicate SignsSixTexts(crypto: Crypto, call: Call)
    requires call.Done?
  {
    crypto == Recording() ==>
      TextsIn(call.signature) ==
      ["AWS4" + call.p.secret, call.p.date, call.p.region, call.p.service, "aws4_request", call.stringToSign]
  }

  lemma RightCallsSignSixTexts(crypto: Crypto, call: Call)
    requires CallRight(crypto, call) && call.Done?
    ensures SignsSixTexts(crypto, call)
  {
    hide Direct, TextsIn, Recording;
    SignatureRecords(call.p, call.stringToSign);
  }

  /**
   In every state any interleaving reaches, also one in which two calls both missed, each entry is
   the derivation for its key, the cache is within its bound, and what a call has signed is what it
   would have signed without a cache.
   */
  lemma {:induction false} EveryRunIsRight(crypto: Crypto, sys: System, schedule: seq<nat>)
    requires SystemRight(crypto, sys)
    ensures SystemRight(crypto, Run(crypto, sys, schedule))
    ensures |Run(crypto, sys, schedule).calls| == |sys.calls|
    ensures forall i | 0 <= i < |sys.calls| ::
      var call := Run(crypto, sys, schedule).calls[i];
      call.p == sys.calls[i].p && call.stringToSign == sys.calls[i].stringToSign
    ensures var now := Run(crypto, sys, schedule);
      && |now.cache.keys| <= 100
      && forall i | 0 <= i < |now.calls| && now.calls[i].Done? :: SignsSixTexts(crypto, now.calls[i])
  {
    hide CallRight, Sound, Advance, SignsSixTexts;
    if schedule != [] {
      var before := Run(crypto, sys, schedule[..|schedule| - 1]);
      EveryRunIsRight(crypto, sys, schedule[..|schedule| - 1]);
      var i := schedule[|schedule| - 1];
      if i < |before.calls| {
        AdvanceStaysRight(crypto, before.cache, before.calls[i]);
      }
    }
    var now := Run(crypto, sys, schedule);
    forall i | 0 <= i < |now.calls| && now.calls[i].Done?
      ensures SignsSixTexts(crypto, now.calls[i])
    {
      RightCallsSignSixTexts(crypto, now.calls[i]);
    }
  }

  /** The start: an empty cache, and calls that have not begun. */
  lemma FreshSystemIsRight(crypto: Crypto, calls: seq<Call>)
    requires forall i | 0 <= i < |calls| :: (calls[i].Instant? || calls[i].Waiting?) && ColonFree(calls[i].p)
    ensures SystemRight(crypto, System(Empty(), calls))
  {}

  /**
   All states that are reachable: calls free of colons, none of them begun, an empty cache, and any
   schedule. What has been signed is what would have been without a cache.
   */
  lemma EveryReachableStateIsRight(crypto: Crypto, calls: seq<Call>, schedule: seq<nat>)
    requires forall i | 0 <= i < |calls| :: (calls[i].Instant? || calls[i].Waiting?) && ColonFree(calls[i].p)
    ensures var sys := Run(crypto, System(Empty(), calls), schedule);
      && |sys.calls| == |calls| && |sys.cache.keys| <= 100
      && (forall i | 0 <= i < |calls| && sys.calls[i].Done? ::
            && sys.calls[i].signature == Direct(crypto, calls[i].p, calls[i].stringToSign)
            && (crypto == Recording() ==>
                  TextsIn(sys.calls[i].signature) ==
                  ["AWS4" + calls[i].p.secret, calls[i].p.date, calls[i].p.region, calls[i].p.service,
                   "aws4_request", calls[i].stringToSign]))
      && (forall k | k in sys.cache.entries ::
            exists p :: CacheKey(p) == k && sys.cache.entries[k] == Derive(crypto, p))
  {
    hide Run, ColonFree, Derive, CacheKey, Direct, TextsIn, Recording;
    FreshSystemIsRight(crypto, calls);
    EveryRunIsRight(crypto, System(Empty(), calls), schedule);
    forall i | 0 <= i < |calls| {
      SignatureRecords(calls[i].p, calls[i].stringToSign);
    }
  }

  // ---------- Calls come to an end ----------

  /** How often call `i` gets its turn. */
  function TurnsOf(schedule: seq<nat>, i: nat): nat {
    if schedule == [] then 0
    else TurnsOf(schedule[..|schedule| - 1], i) + if schedule[|schedule| - 1] == i then 1 else 0
  }

  /** How many turns a call needs at most. */
  function TurnsNeeded(call: Call): nat {
    match call
    case Instant(_, _) => 1
    case Waiting(_, _) => 3
    case Deriving(_, _) => 2
    case Signing(_, _, _) => 1
    case Done(_, _, _) => 0
  }

  lemma OneTurnLess(crypto: Crypto, cache: Cache, call: Call)
    requires cache.Valid()
    ensures var after := Advance(crypto, cache, call).1;
      TurnsNeeded(after) < TurnsNeeded(call) || (TurnsNeeded(call) == 0 && after == call)
  {
    hide CacheKey, Derive, Sign, Stored;
  }

  lemma {:induction false} TurnsAreUsed(crypto: Crypto, sys: System, schedule: seq<nat>, i: nat)
    requires sys.cache.Valid() && i < |sys.calls|
    ensures var now := Run(crypto, sys, schedule);
      && |now.calls| == |sys.calls|
      && (now.calls[i].Done? || TurnsNeeded(now.calls[i]) + TurnsOf(schedule, i) <= TurnsNeeded(sys.calls[i]))
  {
    hide Advance, TurnsNeeded;
    if schedule != [] {
      var before := Run(crypto, sys, schedule[..|schedule| - 1]);
      TurnsAreUsed(crypto, sys, schedule[..|schedule| - 1], i);
      var k := schedule[|schedule| - 1];
      if k < |before.calls| {
        OneTurnLess(crypto, before.cache, before.calls[k]);
        OnlyDoneNeedsNone(before.calls[i]);
      }
    }
  }

  lemma OnlyDoneNeedsNone(call: Call)
    ensures TurnsNeeded(call) == 0 <==> call.Done?
    ensures TurnsNeeded(call) <= 3
  {}

  /** Whatever else goes on, a call that gets three turns has its signature. */
  lemma ThreeTurnsFinish(crypto: Crypto, sys: System, schedule: seq<nat>, i: nat)
    requires sys.cache.Valid() && i < |sys.calls| && TurnsOf(schedule, i) >= 3
    ensures |Run(crypto, sys, schedule).calls| == |sys.calls| && Run(crypto, sys, schedule).calls[i].Done?
  {
    hide Run, TurnsNeeded, TurnsOf;
    TurnsAreUsed(crypto, sys, schedule, i);
    OnlyDoneNeedsNone(sys.calls[i]);
    OnlyDoneNeedsNone(Run(crypto, sys, schedule).calls[i]);
  }
}
