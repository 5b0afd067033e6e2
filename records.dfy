/** Reading a field of a parsed CSV record under any of several header spellings, as the
    chains `r[k1] || r[k2] || ... || ''` do: a missing key and an empty cell are both falsy. */
module Records {
  import opened Csv

  /** The record has a non-empty value under key k. */
  predicate HasValue(r: Record, k: string) {
    k in r && r[k] != ""
  }

  /** v is what the chain over keys yields: the value under the first filled key, or "" when
      no key is filled. */
  predicate IsFirstFilled(r: Record, keys: seq<string>, v: string) {
    || (v == "" && forall i :: 0 <= i < |keys| ==> !HasValue(r, keys[i]))
    || (exists i :: 0 <= i < |keys| && HasValue(r, keys[i]) && r[keys[i]] == v
                    && forall j :: 0 <= j < i ==> !HasValue(r, keys[j]))
  }

  /** `r[keys[0]] || r[keys[1]] || ... || ''`. */
  function FirstFilled(r: Record, keys: seq<string>): (v: string)
    ensures IsFirstFilled(r, keys, v)
  {
    if keys == [] then ""
    else if HasValue(r, keys[0]) then r[keys[0]]
    else
      var v := FirstFilled(r, keys[1..]);
      if v == "" then v
      else
        var i :| 0 <= i < |keys[1..]| && HasValue(r, keys[1..][i]) && r[keys[1..][i]] == v
                 && forall j :: 0 <= j < i ==> !HasValue(r, keys[1..][j]);
        assert HasValue(r, keys[i + 1]) && r[keys[i + 1]] == v;
        assert forall j :: 0 <= j < i + 1 ==> !HasValue(r, keys[j]) by {
          forall j | 0 <= j < i + 1 ensures !HasValue(r, keys[j]) {
            if j > 0 { assert keys[j] == keys[1..][j - 1]; }
          }
        }
        v
  }

  /** The chain has one outcome: IsFirstFilled pins the value down. */
  lemma FirstFilledIsUnique(r: Record, keys: seq<string>, v: string, w: string)
    requires IsFirstFilled(r, keys, v) && IsFirstFilled(r, keys, w)
    ensures v == w
  {
    if v != "" && w != "" {
      var i :| 0 <= i < |keys| && HasValue(r, keys[i]) && r[keys[i]] == v
               && forall j :: 0 <= j < i ==> !HasValue(r, keys[j]);
      var k :| 0 <= k < |keys| && HasValue(r, keys[k]) && r[keys[k]] == w
               && forall j :: 0 <= j < k ==> !HasValue(r, keys[j]);
      assert i == k;
    }
  }

  /** The chain yields "" exactly when none of its keys holds a non-empty value. */
  lemma FirstFilledEmpty(r: Record, keys: seq<string>)
    ensures FirstFilled(r, keys) == "" <==> forall k :: k in keys ==> !HasValue(r, k)
  {
    var v := FirstFilled(r, keys);
    if v != "" {
      var i :| 0 <= i < |keys| && HasValue(r, keys[i]) && r[keys[i]] == v;
      assert keys[i] in keys;
    } else {
      forall k | k in keys ensures !HasValue(r, k) {
        var i :| 0 <= i < |keys| && keys[i] == k;
      }
    }
  }

  /** A value reached through the chain is always one of the record's values, or "". */
  lemma FirstFilledFromRecord(r: Record, keys: seq<string>)
    ensures FirstFilled(r, keys) == "" || FirstFilled(r, keys) in r.Values
  {
    var v := FirstFilled(r, keys);
    if v != "" {
      var i :| 0 <= i < |keys| && HasValue(r, keys[i]) && r[keys[i]] == v;
      assert r[keys[i]] in r.Values;
    }
  }

  /** A chain of two spellings, spelled out. */
  lemma FirstFilledOfTwo(r: Record, a: string, b: string)
    ensures FirstFilled(r, [a, b]) ==
      if HasValue(r, a) then r[a] else if HasValue(r, b) then r[b] else ""
  {
    assert [a, b][1..] == [b] && [b][1..] == [];
  }

  /** A chain of three spellings, spelled out. */
  lemma FirstFilledOfThree(r: Record, a: string, b: string, c: string)
    ensures FirstFilled(r, [a, b, c]) ==
      if HasValue(r, a) then r[a] else if HasValue(r, b) then r[b] else if HasValue(r, c) then r[c] else ""
  {
    assert [a, b, c][1..] == [b, c];
    FirstFilledOfTwo(r, b, c);
  }
}
