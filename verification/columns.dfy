/** The column index `IDX` (script.js lines 112-113): each normalised
    header name mapped to its position, a later duplicate overwriting an
    earlier one; and the lookups the dashboard makes in it. */
module Columns {
  import opened Strings
  import opened Values
  import opened Normalize

  type Index = map<string, nat>

  /** `norm(h)` of a header cell. */
  function HeaderKey(h: Cell): string {
    Norm(StrOr(h))
  }

  /** The normalised names of the headers, in order. */
  function HeaderKeys(headers: seq<Cell>): (keys: seq<string>)
    ensures |keys| == |headers|
    ensures forall i :: 0 <= i < |headers| ==> keys[i] == HeaderKey(headers[i])
  {
    if headers == [] then [] else [HeaderKey(headers[0])] + HeaderKeys(headers[1..])
  }

  /** The index after the names have been entered one by one, in order. */
  function IndexOf(keys: seq<string>): (idx: Index)
    ensures forall k :: k in idx ==> idx[k] < |keys|
  {
    if keys == [] then map[]
    else IndexOf(keys[..|keys| - 1])[keys[|keys| - 1] := |keys| - 1]
  }

  /** Entering the next header's name. */
  lemma IndexOfStep(hs: seq<Cell>, i: nat)
    requires i < |hs|
    ensures IndexOf(HeaderKeys(hs[..i + 1])) == IndexOf(HeaderKeys(hs[..i]))[HeaderKey(hs[i]) := i]
  {
    TakeOneMore(hs, i);
    HeaderKeysSnoc(hs[..i], hs[i]);
    IndexOfSnoc(HeaderKeys(hs[..i]), HeaderKey(hs[i]));
  }

  lemma {:induction false} HeaderKeysSnoc(hs: seq<Cell>, h: Cell)
    ensures HeaderKeys(hs + [h]) == HeaderKeys(hs) + [HeaderKey(h)]
  {
    if hs != [] {
      assert (hs + [h])[1..] == hs[1..] + [h];
      HeaderKeysSnoc(hs[1..], h);
    }
  }

  lemma IndexOfSnoc(keys: seq<string>, k: string)
    ensures IndexOf(keys + [k]) == IndexOf(keys)[k := |keys|]
  {
    assert (keys + [k])[..|keys|] == keys;
  }

  /** A name is in the index exactly when it occurs among the names, and it
      maps to its last occurrence. */
  lemma {:induction false} IndexOfLastWins(keys: seq<string>, k: string)
    ensures k in IndexOf(keys) <==> k in keys
    ensures k in IndexOf(keys) ==>
              && keys[IndexOf(keys)[k]] == k
              && forall j :: IndexOf(keys)[k] < j < |keys| ==> keys[j] != k
    decreases |keys|
  {
    if keys != [] {
      var n := |keys| - 1;
      var init := keys[..n];
      IndexOfLastWins(init, k);
      assert keys == init + [keys[n]];
      if keys[n] != k && k in IndexOf(keys) {
        assert IndexOf(keys)[k] == IndexOf(init)[k];
      }
    }
  }

  /** The index holds exactly the names, each mapped to the last position
      carrying it. */
  lemma IndexOfFacts(keys: seq<string>)
    ensures forall k :: k in IndexOf(keys) <==> k in keys
    ensures forall i :: 0 <= i < |keys| ==>
              keys[i] in IndexOf(keys) && i <= IndexOf(keys)[keys[i]] < |keys|
              && keys[IndexOf(keys)[keys[i]]] == keys[i]
  {
    forall k ensures k in IndexOf(keys) <==> k in keys {
      IndexOfLastWins(keys, k);
    }
    forall i | 0 <= i < |keys|
      ensures keys[i] in IndexOf(keys) && i <= IndexOf(keys)[keys[i]] < |keys|
              && keys[IndexOf(keys)[keys[i]]] == keys[i]
    {
      IndexOfLastWins(keys, keys[i]);
    }
  }

  /** `IDX[key]`: the column, or nothing (`undefined`). */
  function Lookup(idx: Index, key: string): (r: Option<nat>)
    ensures r.Some? <==> key in idx
  {
    if key in idx then Some(idx[key]) else None
  }

  /** The first of several names present in the index, as `a ?? b` and as
      `cand.map(k => IDX[k]).find(i => i != null)` pick it. */
  function FirstPresent(idx: Index, keys: seq<string>): (r: Option<nat>)
    ensures r.None? <==> forall i :: 0 <= i < |keys| ==> keys[i] !in idx
    ensures r.Some? ==> exists i :: 0 <= i < |keys| && keys[i] in idx && r.value == idx[keys[i]]
                                    && forall j :: 0 <= j < i ==> keys[j] !in idx
  {
    if keys == [] then None
    else if keys[0] in idx then
      Some(idx[keys[0]])
    else
      var r := FirstPresent(idx, keys[1..]);
      assert r.Some? ==> exists i :: 1 <= i < |keys| && keys[i] in idx && r.value == idx[keys[i]]
                                     && forall j :: 0 <= j < i ==> keys[j] !in idx by {
        if r.Some? {
          var i :| 0 <= i < |keys[1..]| && keys[1..][i] in idx && r.value == idx[keys[1..][i]]
                   && forall j :: 0 <= j < i ==> keys[1..][j] !in idx;
          assert forall j :: 0 <= j < i + 1 ==> keys[j] !in idx by {
            forall j | 0 <= j < i + 1 ensures keys[j] !in idx {
              if j > 0 { assert keys[j] == keys[1..][j - 1]; }
            }
          }
        }
      }
      r
  }

  /** The header names the dashboard looks up, written as `norm` leaves
      them (`NamesNormalised` shows that `norm` leaves them unchanged). */
  const PersonKey: string := "persona encargada"
  const ResponsibleKey: string := "responsable"
  const StatusKey: string := "estado"
  const UrgencyKey: string := "urgencia"

  lemma NamesNormalised(k: string)
    requires k == PersonKey || k == ResponsibleKey || k == StatusKey || k == UrgencyKey
    ensures Norm(k) == k
  {
    if k == PersonKey {
      NormalFixed(PersonKey);
    } else if k == ResponsibleKey {
      NormalFixed(ResponsibleKey);
    } else if k == StatusKey {
      NormalFixed(StatusKey);
    } else {
      NormalFixed(UrgencyKey);
    }
  }

  /** The responsible person's column: `persona encargada`, else
      `responsable` (lines 279 and 298). */
  function PersonColumn(idx: Index): Option<nat> {
    FirstPresent(idx, [PersonKey, ResponsibleKey])
  }

  /** The status column (lines 280, 299 and 324). */
  function StatusColumn(idx: Index): Option<nat> {
    Lookup(idx, StatusKey)
  }

  /** The urgency column (lines 281 and 300). */
  function UrgencyColumn(idx: Index): Option<nat> {
    Lookup(idx, UrgencyKey)
  }

  /** The names a deadline column may have (line 374), in order of
      preference. */
  const DeadlineNames: seq<string> :=
    ["fecha límite", "fecha limite", "vence", "plazo", "entrega", "fecha de entrega", "fecha"]

  function NormAll(names: seq<string>): (keys: seq<string>)
    ensures |keys| == |names|
    ensures forall i :: 0 <= i < |names| ==> keys[i] == Norm(names[i])
  {
    if names == [] then [] else [Norm(names[0])] + NormAll(names[1..])
  }

  /** The deadline column (line 375): the first candidate name present. */
  function DeadlineColumn(idx: Index): Option<nat> {
    FirstPresent(idx, NormAll(DeadlineNames))
  }

  /** With both person columns present, the first one is used. */
  lemma PersonColumnPrefersFirst(idx: Index)
    requires PersonKey in idx
    ensures PersonColumn(idx) == Some(idx[PersonKey])
  {
  }

  /** Looking several names up in the index of some header names finds
      nothing exactly when none of them is a header name. */
  lemma FirstPresentMissing(keys: seq<string>, cands: seq<string>)
    ensures FirstPresent(IndexOf(keys), cands).None? <==> forall n :: 0 <= n < |cands| ==> cands[n] !in keys
  {
    forall n | 0 <= n < |cands| ensures cands[n] in IndexOf(keys) <==> cands[n] in keys {
      IndexOfLastWins(keys, cands[n]);
    }
  }

  /** Otherwise it finds the last header carrying the first of them that
      is a header name. */
  lemma FirstPresentInIndex(keys: seq<string>, cands: seq<string>)
    requires FirstPresent(IndexOf(keys), cands).Some?
    ensures FirstPresent(IndexOf(keys), cands).value < |keys|
    ensures exists n :: FirstHeader(keys, cands, n, FirstPresent(IndexOf(keys), cands).value)
  {
    var idx := IndexOf(keys);
    var c := FirstPresent(idx, cands).value;
    var n :| 0 <= n < |cands| && cands[n] in idx && c == idx[cands[n]]
             && forall j :: 0 <= j < n ==> cands[j] !in idx;
    IndexOfLastWins(keys, cands[n]);
    forall j | 0 <= j < n ensures cands[j] !in keys {
      IndexOfLastWins(keys, cands[j]);
    }
    assert FirstHeader(keys, cands, n, c);
  }

  /** `cands[n]` is the first of the candidates that is a header name, and
      `c` the last position carrying it. */
  predicate FirstHeader(keys: seq<string>, cands: seq<string>, n: nat, c: nat) {
    && n < |cands| && c < |keys|
    && keys[c] == cands[n]
    && (forall j :: 0 <= j < n ==> cands[j] !in keys)
    && (forall j :: c < j < |keys| ==> keys[j] != cands[n])
  }

}
