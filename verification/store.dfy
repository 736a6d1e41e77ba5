/** The loader's configuration map: a `HashMap<String, String>` written only through
    `put` (last write wins) and read only through an exact-key `get`. Precedence
    between sources is nothing but the order of the writes. */
module ConfigStore {
  import opened Wrappers

  type Store = map<string, string>

  /** One `configuration.put(key, value)` call. */
  datatype Write = Write(key: string, value: string)

  /** Any string-to-string map read with an exact key (`Map.get`). */
  function Get(m: map<string, string>, key: string): (r: Option<string>)
    ensures r.Some? <==> key in m
    ensures r.Some? ==> r.value == m[key]
  {
    if key in m then Some(m[key]) else None
  }

  /** `put`: overwrite one entry. */
  function Put(s: Store, key: string, value: string): Store
  {
    s[key := value]
  }

  /** A lookup right after a put sees the value just put under that exact key and
      the old value under every other key. */
  lemma GetAfterPut(s: Store, key: string, value: string, other: string)
    ensures Get(Put(s, key, value), key) == Some(value)
    ensures other != key ==> Get(Put(s, key, value), other) == Get(s, other)
  {
  }

  /** Two stores that answer every lookup alike are the same store. */
  lemma {:induction false} SameLookupsSameStore(a: Store, b: Store)
    requires forall k :: Get(a, k) == Get(b, k)
    ensures a == b
  {
    assert a.Keys == b.Keys by {
      forall k | k in a ensures k in b { assert Get(a, k).Some?; }
      forall k | k in b ensures k in a { assert Get(b, k).Some?; }
    }
    forall k | k in a ensures a[k] == b[k] { assert Get(a, k) == Get(b, k); }
  }

  /** The value of the last write to `key` in `ws`, if any write targets it. */
  function LastWrite(ws: seq<Write>, key: string): Option<string>
  {
    if ws == [] then None
    else LastWrite(ws[1..], key).Or(if ws[0].key == key then Some(ws[0].value) else None)
  }

  /** The last write of a concatenation comes from its second part when that part
      writes the key at all. */
  lemma {:induction false} LastWriteConcat(a: seq<Write>, b: seq<Write>, key: string)
    ensures LastWrite(a + b, key) == LastWrite(b, key).Or(LastWrite(a, key))
  {
    if a == [] {
      assert a + b == b;
    } else {
      assert (a + b)[1..] == a[1..] + b;
      LastWriteConcat(a[1..], b, key);
    }
  }

  /** `LastWrite` finds the value of the write to `key` that no later write to `key`
      follows, and nothing when no write targets `key`. */
  lemma {:induction false} LastWriteIsLast(ws: seq<Write>, key: string)
    ensures LastWrite(ws, key).None? <==> forall i :: 0 <= i < |ws| ==> ws[i].key != key
    ensures LastWrite(ws, key).Some? ==>
              exists i :: 0 <= i < |ws| && ws[i] == Write(key, LastWrite(ws, key).value)
                && forall j :: i < j < |ws| ==> ws[j].key != key
  {
    if ws != [] {
      LastWriteIsLast(ws[1..], key);
      var tail := LastWrite(ws[1..], key);
      if tail.Some? {
        var i :| 0 <= i < |ws[1..]| && ws[1..][i] == Write(key, tail.value)
                 && forall j :: i < j < |ws[1..]| ==> ws[1..][j].key != key;
        assert ws[i + 1] == Write(key, tail.value);
        forall j | i + 1 < j < |ws| ensures ws[j].key != key {
          assert ws[j] == ws[1..][j - 1];
        }
      } else if ws[0].key == key {
        forall j | 0 < j < |ws| ensures ws[j].key != key {
          assert ws[j] == ws[1..][j - 1];
        }
      } else {
        forall i | 0 <= i < |ws| ensures ws[i].key != key {
          if i > 0 { assert ws[i] == ws[1..][i - 1]; }
        }
      }
    }
  }

  /** A sequence of puts, in order. After it, a key holds its last written value, and
      a key no write targets keeps whatever it held before (or stays absent). */
  function PutAll(s: Store, ws: seq<Write>): (r: Store)
    ensures forall k :: Get(r, k) == LastWrite(ws, k).Or(Get(s, k))
    decreases |ws|
  {
    if ws == [] then s else PutAll(Put(s, ws[0].key, ws[0].value), ws[1..])
  }

  /** Putting every entry of a map with distinct keys (a `Properties` object):
      its keys win, every other key keeps its value. */
  function PutMap(s: Store, m: map<string, string>): (r: Store)
    ensures forall k :: Get(r, k) == Get(m, k).Or(Get(s, k))
  {
    s + m
  }
}
