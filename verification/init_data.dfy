/** Telegram Mini App init-data validation: the data-check string, the
    HMAC-SHA256 comparison and the guard in front of protected routes
    (api.py:14-32).  HMAC-SHA256 and UTF-8 encoding are supplied as opaque
    functions; nothing here depends on how they compute. */
module InitData {
  import opened Wrappers
  import opened Text
  import Hex

  /** One key of the signed payload with its value as Python's `str()` renders it. */
  datatype Entry = Entry(key: string, value: string)

  /** No key occurs twice: the entries of a Python `dict`, in iteration order. */
  predicate IsDict(es: seq<Entry>) {
    forall i, j :: 0 <= i < j < |es| ==> es[i].key != es[j].key
  }

  type Dict = es: seq<Entry> | IsDict(es) witness []

  /** What `json.loads` made of the header: an object, or any other JSON value
      (on which `.get` raises and verification fails). */
  datatype Json = Object(entries: Dict) | NonObject

  /** The opaque primitives: `hmac.new(key, msg, hashlib.sha256).digest()` and
      `str.encode()`. */
  datatype Crypto = Crypto(hmacSha256: (seq<Hex.byte>, seq<Hex.byte>) -> seq<Hex.byte>,
                           utf8: string -> seq<Hex.byte>)

  const HashKey: string := "hash"
  const SecretLabel: string := "WebAppData"

  /** `d.get(k, default)`. */
  function Get(es: seq<Entry>, k: string, default: string): (v: string)
    ensures (exists e :: e in es && e.key == k) || v == default
    ensures (exists e :: e in es && e.key == k) ==> Entry(k, v) in es
    ensures IsDict(es) ==> forall e :: e in es && e.key == k ==> v == e.value
  {
    if |es| == 0 then default
    else if es[0].key == k then es[0].value
    else Get(es[1..], k, default)
  }

  /** The entries other than `hash`, in their original order. */
  function WithoutHash(es: seq<Entry>): (r: seq<Entry>)
    ensures forall e :: e in r <==> e in es && e.key != HashKey
    ensures IsDict(es) ==> IsDict(r)
  {
    if |es| == 0 then []
    else
      var rest := WithoutHash(es[1..]);
      assert forall e :: e in es <==> e == es[0] || e in es[1..];
      if es[0].key == HashKey then rest
      else
        assert IsDict(es) ==> forall e :: e in rest ==> e.key != es[0].key by {
          if IsDict(es) {
            forall e | e in rest ensures e.key != es[0].key {
              var k :| 0 <= k < |es[1..]| && es[1..][k] == e;
              assert es[k + 1] == e;
            }
          }
        }
        [es[0]] + rest
  }

  /** Keys strictly ascending in Python's string order. */
  predicate Ascending(es: seq<Entry>) {
    forall i, j :: 0 <= i < j < |es| ==> Less(es[i].key, es[j].key)
  }

  /** Puts `e` in its place among the ascending entries `s`. */
  function Insert(e: Entry, s: seq<Entry>): (r: seq<Entry>)
    requires Ascending(s)
    requires forall x :: x in s ==> x.key != e.key
    ensures Ascending(r)
    ensures |r| == |s| + 1
    ensures forall x :: x in r <==> x in s || x == e
  {
    if |s| == 0 then [e]
    else if Less(e.key, s[0].key) then
      BelowHeadBelowAll(e, s);
      AscendingCons(e, s);
      [e] + s
    else
      LessTotal(e.key, s[0].key);
      AscendingTail(s);
      var rest := Insert(e, s[1..]);
      assert forall x :: x in s <==> x == s[0] || x in s[1..];
      assert forall x :: x in rest ==> Less(s[0].key, x.key) by {
        forall x | x in rest ensures Less(s[0].key, x.key) {
          if x != e {
            var k :| 0 <= k < |s[1..]| && s[1..][k] == x;
            assert s[k + 1] == x;
          }
        }
      }
      AscendingCons(s[0], rest);
      [s[0]] + rest
  }

  lemma AscendingTail(s: seq<Entry>)
    requires Ascending(s) && |s| > 0
    ensures Ascending(s[1..])
  {
  }

  lemma AscendingCons(x: Entry, t: seq<Entry>)
    requires Ascending(t)
    requires forall y :: y in t ==> Less(x.key, y.key)
    ensures Ascending([x] + t)
  {
    var r := [x] + t;
    forall i, j | 0 <= i < j < |r| ensures Less(r[i].key, r[j].key) {
      assert r[j] == t[j - 1];
      if i > 0 {
        assert r[i] == t[i - 1];
      }
    }
  }

  /** An entry below the head of an ascending sequence is below all of it. */
  lemma BelowHeadBelowAll(e: Entry, s: seq<Entry>)
    requires Ascending(s) && |s| > 0 && Less(e.key, s[0].key)
    ensures forall y :: y in s ==> Less(e.key, y.key)
  {
    forall y | y in s ensures Less(e.key, y.key) {
      var k :| 0 <= k < |s| && s[k] == y;
      if k > 0 {
        LessTransitive(e.key, s[0].key, y.key);
      }
    }
  }

  /** `sorted(items)`: since keys are distinct, the order is that of the keys.
      The result holds the same entries, each once. */
  function Sort(es: seq<Entry>): (r: seq<Entry>)
    requires IsDict(es)
    ensures Ascending(r)
    ensures |r| == |es|
    ensures forall x :: x in r <==> x in es
  {
    if |es| == 0 then []
    else
      DictTail(es);
      var rest := Sort(es[1..]);
      assert forall x :: x in es <==> x == es[0] || x in es[1..];
      Insert(es[0], rest)
  }

  /** `f'{k}={v}'`. */
  function Line(e: Entry): string {
    e.key + "=" + e.value
  }

  function Lines(es: seq<Entry>): (r: seq<string>)
    ensures |r| == |es|
    ensures forall i :: 0 <= i < |es| ==> r[i] == Line(es[i])
  {
    if |es| == 0 then [] else [Line(es[0])] + Lines(es[1..])
  }

  /** The data-check string of api.py:18: the `k=v` lines of the entries other
      than `hash`, in ascending key order, joined by newlines.  Any ascending
      arrangement of those entries gives this same string. */
  function DataCheckString(d: Dict): (r: string)
    ensures forall s :: Ascending(s) && (forall e :: e in s <==> e in d && e.key != HashKey) ==>
      r == Join(Lines(s), "\n")
  {
    var sorted := Sort(WithoutHash(d));
    assert forall s :: Ascending(s) && (forall e :: e in s <==> e in d && e.key != HashKey) ==>
      Join(Lines(sorted), "\n") == Join(Lines(s), "\n") by {
      forall s | Ascending(s) && (forall e :: e in s <==> e in d && e.key != HashKey)
        ensures Join(Lines(sorted), "\n") == Join(Lines(s), "\n")
      {
        AscendingUnique(sorted, s);
      }
    }
    Join(Lines(sorted), "\n")
  }

  /** HMAC-SHA256 yields a 32-byte digest, whatever the key and message. */
  ghost predicate Sha256Sized(c: Crypto) {
    forall k, m :: |c.hmacSha256(k, m)| == 32
  }

  /** `hmac.new('WebAppData'.encode(), TOKEN.encode(), sha256).digest()`: the
      derived key is itself a SHA-256-sized digest. */
  function SecretKey(c: Crypto, token: string): (k: seq<Hex.byte>)
    ensures Sha256Sized(c) ==> |k| == 32
  {
    c.hmacSha256(c.utf8(SecretLabel), c.utf8(token))
  }

  /** The hex digest a genuine payload carries under `hash`. */
  function ExpectedHash(c: Crypto, token: string, d: Dict): (h: string)
    ensures forall i :: 0 <= i < |h| ==> Hex.IsDigit(h[i])
  {
    Hex.Encode(c.hmacSha256(SecretKey(c, token), c.utf8(DataCheckString(d))))
  }

  /** `verify_telegram_data`: a non-object payload makes `.get` raise, which is
      caught and reported as failure; otherwise the received `hash` (empty when
      absent) must equal the computed hex digest. */
  function Verify(c: Crypto, token: string, payload: Json): (ok: bool)
    ensures payload.NonObject? ==> !ok
    ensures payload.Object? ==>
      forall s :: Ascending(s) && (forall e :: e in s <==> e in payload.entries && e.key != HashKey) ==>
        (ok <==> Get(payload.entries, HashKey, "") ==
                 Hex.Encode(c.hmacSha256(c.hmacSha256(c.utf8(SecretLabel), c.utf8(token)),
                                         c.utf8(Join(Lines(s), "\n")))))
  {
    match payload
    case NonObject => false
    case Object(d) => ExpectedHash(c, token, d) == Get(d, HashKey, "")
  }

  /** Outcome of `telegram_auth_required`.  `Malformed` is a header that
      `json.loads` rejects: that exception is outside the `try` and escapes the
      handler. */
  datatype AuthOutcome = Unauthorized | Malformed | Authorized(payload: Json)

  /** The guard of api.py:25-32; `parse` stands for `json.loads`. */
  function Authorize(c: Crypto, token: string, header: Option<string>,
                     parse: string -> Option<Json>): (r: AuthOutcome)
    ensures header.None? || header == Some("") ==> r == Unauthorized
    ensures r.Authorized? ==> r.payload.Object?
    ensures r.Authorized? ==> header.Some? && parse(header.value) == Some(r.payload)
    ensures r.Authorized? ==>
      Get(r.payload.entries, HashKey, "") == ExpectedHash(c, token, r.payload.entries)
    ensures r.Malformed? ==> header.Some? && parse(header.value).None?
    ensures header.Some? && header.value != "" && parse(header.value).Some? ==>
      (r.Authorized? <==> Verify(c, token, parse(header.value).value))
    ensures header.Some? && header.value != "" && parse(header.value).None? ==> r == Malformed
  {
    match header
    case None => Unauthorized
    case Some(text) =>
      if text == "" then Unauthorized
      else match parse(text)
        case None => Malformed
        case Some(payload) => if Verify(c, token, payload) then Authorized(payload) else Unauthorized
  }

  // Properties of the data-check string and of verification.

  /** Two ascending sequences with the same entries are the same sequence. */
  lemma {:induction false} AscendingUnique(a: seq<Entry>, b: seq<Entry>)
    requires Ascending(a) && Ascending(b)
    requires forall e :: e in a <==> e in b
    ensures a == b
  {
    SameEntriesBothEmpty(a, b);
    if |a| > 0 {
      assert a[0] == b[0] by {
        LeastIsFirst(a, b[0]);
        LeastIsFirst(b, a[0]);
        if a[0] != b[0] {
          LessAsymmetric(a[0].key, b[0].key);
        }
      }
      forall e ensures e in a[1..] <==> e in b[1..] {
        assert e in a <==> e == a[0] || e in a[1..];
        assert e in b <==> e == b[0] || e in b[1..];
        FirstNotInRest(a);
        FirstNotInRest(b);
      }
      AscendingUnique(a[1..], b[1..]);
      assert a == [a[0]] + a[1..] && b == [b[0]] + b[1..];
    }
  }

  lemma SameEntriesBothEmpty(a: seq<Entry>, b: seq<Entry>)
    requires forall e :: e in a <==> e in b
    ensures |a| == 0 <==> |b| == 0
  {
    if |a| > 0 { assert a[0] in b; }
    if |b| > 0 { assert b[0] in a; }
  }

  lemma LeastIsFirst(a: seq<Entry>, e: Entry)
    requires Ascending(a) && |a| > 0 && e in a
    ensures e == a[0] || Less(a[0].key, e.key)
  {
  }

  lemma FirstNotInRest(a: seq<Entry>)
    requires Ascending(a) && |a| > 0
    ensures a[0] !in a[1..]
  {
    forall k | 0 <= k < |a[1..]| ensures a[1..][k] != a[0] {
      assert a[1..][k] == a[k + 1];
      assert Less(a[0].key, a[k + 1].key);
    }
  }


  /** The order in which the payload's keys arrive does not matter. */
  lemma DataCheckStringOrderFree(a: Dict, b: Dict)
    requires forall e :: e in a <==> e in b
    ensures DataCheckString(a) == DataCheckString(b)
  {
    var sorted := Sort(WithoutHash(a));
    assert forall e :: e in sorted <==> e in b && e.key != HashKey;
  }

  /** `d['hash'] = h`: overwrite in place, or add at the end when absent. */
  function SetHash(es: seq<Entry>, h: string): (r: seq<Entry>)
    ensures WithoutHash(r) == WithoutHash(es)
    ensures forall e :: e in r ==> e in es || e == Entry(HashKey, h)
  {
    if |es| == 0 then [Entry(HashKey, h)]
    else if es[0].key == HashKey then [Entry(HashKey, h)] + es[1..]
    else
      var rest := SetHash(es[1..], h);
      assert ([es[0]] + rest)[1..] == rest;
      [es[0]] + rest
  }

  lemma DictTail(es: seq<Entry>)
    requires IsDict(es) && |es| > 0
    ensures IsDict(es[1..])
    ensures forall e :: e in es[1..] ==> e.key != es[0].key
  {
    forall i, j | 0 <= i < j < |es[1..]| ensures es[1..][i].key != es[1..][j].key {
      assert es[1..][i] == es[i + 1] && es[1..][j] == es[j + 1];
    }
    forall e | e in es[1..] ensures e.key != es[0].key {
      var k :| 0 <= k < |es[1..]| && es[1..][k] == e;
      assert es[k + 1] == e;
    }
  }

  /** Setting `hash` keeps the keys distinct, and `get('hash')` then reads it back. */
  lemma {:induction false} SetHashKeepsDict(es: seq<Entry>, h: string)
    requires IsDict(es)
    ensures IsDict(SetHash(es, h))
    ensures Get(SetHash(es, h), HashKey, "") == h
  {
    if |es| > 0 {
      DictTail(es);
      var r := SetHash(es, h);
      if es[0].key != HashKey {
        SetHashKeepsDict(es[1..], h);
        assert r == [es[0]] + SetHash(es[1..], h);
        assert r[1..] == SetHash(es[1..], h);
      }
    }
  }

  /** Rewriting the `hash` value never changes the data-check string. */
  lemma DataCheckStringIgnoresHash(d: Dict, h: string)
    ensures IsDict(SetHash(d, h))
    ensures DataCheckString(SetHash(d, h)) == DataCheckString(d)
  {
    SetHashKeepsDict(d, h);
  }

  /** With the other entries fixed, the payload verifies exactly when its `hash`
      is the expected digest. */
  lemma VerifyExactlyExpectedHash(c: Crypto, token: string, d: Dict, h: string)
    ensures IsDict(SetHash(d, h))
    ensures Verify(c, token, Object(SetHash(d, h))) <==> h == ExpectedHash(c, token, d)
  {
    SetHashKeepsDict(d, h);
    DataCheckStringIgnoresHash(d, h);
  }

  /** A `hash` holding anything but lower-case hex digits (an upper-case digest,
      say) is always rejected: `hexdigest()` never produces it. */
  lemma VerifyRejectsNonHex(c: Crypto, token: string, d: Dict, i: nat)
    requires i < |Get(d, HashKey, "")|
    requires !Hex.IsDigit(Get(d, HashKey, "")[i])
    ensures !Verify(c, token, Object(d))
  {
  }

  /** With a real SHA-256, the expected digest is 64 hex digits, so a payload
      whose `hash` is missing, or of any other length, never verifies. */
  lemma VerifyNeedsFullDigest(c: Crypto, token: string, d: Dict)
    requires Sha256Sized(c)
    ensures |Get(d, HashKey, "")| != 64 ==> !Verify(c, token, Object(d))
    ensures (forall e :: e in d ==> e.key != HashKey) ==> !Verify(c, token, Object(d))
  {
  }
}
