/**
 * Parameter expansion (expandParams, core/app/executor.go:122-129): every stored
 * output K rewrites the text `{{ output.K }}` to the trimmed output. sync.Map.Range
 * visits the stored keys in no specified order and each visit runs ReplaceAll on
 * the text the previous visits produced, so the visiting order is an input here.
 */
module Expansion {

  import opened GoStrings

  /** The output store: group name to captured combined output, untrimmed. */
  type Store = map<string, string>

  /** The placeholder that stands for the output of group `key`. */
  function Placeholder(key: string): (p: string)
    ensures |p| == |key| + 13 && p[0] == '{'
  {
    "{{ output." + key + " }}"
  }

  /** One visit of Range: replace `key`'s placeholder when `key` is stored. */
  function Substitute(key: string, store: Store, text: string): string
  {
    if key in store then ReplaceAll(text, Placeholder(key), TrimSpace(store[key])) else text
  }

  /** The visits of Range in the order `order`, each on the result of the previous one.
      Listed keys that are not stored are skipped, so any sequence of names is an order;
      a Range order lists every stored key exactly once. */
  function Expand(order: seq<string>, store: Store, text: string): string
    decreases |order|
  {
    if order == [] then text else Expand(order[1..], store, Substitute(order[0], store, text))
  }

  /** Each parameter expanded on its own, in place; parameter `i` is expanded by its own
      call of Range, which visits the store in the order `orders(i)`. */
  function ExpandAll(orders: nat -> seq<string>, store: Store, params: seq<string>): (r: seq<string>)
    ensures |r| == |params|
    ensures forall i :: 0 <= i < |params| ==> r[i] == Expand(orders(i), store, params[i])
  {
    seq(|params|, i requires 0 <= i < |params| => Expand(orders(i), store, params[i]))
  }

  /** expandParams: the loop that reassigns `param` once per visited key. */
  method ExpandParams(param: string, store: Store, order: seq<string>) returns (r: string)
    ensures r == Expand(order, store, param)
  {
    r := param;
    var i := 0;
    while i < |order|
      invariant 0 <= i <= |order|
      invariant Expand(order, store, param) == Expand(order[i..], store, r)
    {
      assert order[i..][1..] == order[i + 1..];
      r := Substitute(order[i], store, r);
      i := i + 1;
    }
  }

  /** Text holding no stored key's placeholder comes back unchanged, whatever the order;
      in particular, placeholders of keys that are not stored stay verbatim. */
  lemma {:induction false} ExpandNoPlaceholder(order: seq<string>, store: Store, text: string)
    requires forall k :: k in store ==> !Contains(text, Placeholder(k))
    ensures Expand(order, store, text) == text
    decreases |order|
  {
    if order != [] {
      if order[0] in store {
        ReplaceAllAbsent(text, Placeholder(order[0]), TrimSpace(store[order[0]]));
      }
      ExpandNoPlaceholder(order[1..], store, text);
    }
  }

  /** Against an empty store nothing is replaced. */
  lemma ExpandEmptyStore(order: seq<string>, text: string)
    ensures Expand(order, map[], text) == text
  {
    ExpandNoPlaceholder(order, map[], text);
  }

  predicate NoBraces(s: string) {
    '{' !in s && '}' !in s
  }

  lemma PlaceholderBraces(k: string)
    requires NoBraces(k)
    ensures forall t :: 0 <= t < |Placeholder(k)| ==> (Placeholder(k)[t] == '{' <==> t < 2)
    ensures forall t :: 0 <= t < |Placeholder(k)| ==> (Placeholder(k)[t] == '}' <==> t >= |Placeholder(k)| - 2)
  {
    var p := Placeholder(k);
    forall t | 0 <= t < |p|
      ensures (p[t] == '{' <==> t < 2) && (p[t] == '}' <==> t >= |p| - 2)
    {
      if t < 10 {
        assert p[t] == "{{ output."[t];
      } else if t < 10 + |k| {
        assert p[t] == k[t - 10];
      } else {
        assert p[t] == " }}"[t - 10 - |k|];
      }
    }
  }

  lemma PlaceholderOccursAt(k: string, j: string, i: int)
    requires NoBraces(k) && NoBraces(j)
    requires OccursAt(Placeholder(k), Placeholder(j), i)
    ensures k == j
  {
    var pk, pj := Placeholder(k), Placeholder(j);
    PlaceholderBraces(k);
    PlaceholderBraces(j);
    assert pk[i] == pj[0] && pk[i + 1] == pj[1];
    assert i == 0;
    var n := |pj|;
    assert pk[n - 1] == pj[n - 1] && pk[n - 2] == pj[n - 2];
    assert n == |pk|;
    assert pk == pj;
    assert k == pk[10..10 + |k|] == pj[10..10 + |j|] == j;
  }

  /** For names without braces, one placeholder occurs inside another only when
      they are the same placeholder. */
  lemma PlaceholderDistinct(k: string, j: string)
    requires NoBraces(k) && NoBraces(j)
    ensures Contains(Placeholder(k), Placeholder(j)) <==> k == j
  {
    var pk, pj := Placeholder(k), Placeholder(j);
    if Contains(pk, pj) {
      var i :| 0 <= i <= |pk| - |pj| && OccursAt(pk, pj, i);
      PlaceholderOccursAt(k, j, i);
    }
    if k == j {
      assert OccursAt(pk, pj, 0);
    }
  }

  /** Text without an opening brace holds no placeholder. */
  lemma NoPlaceholderWithoutBrace(text: string, key: string)
    requires '{' !in text
    ensures !Contains(text, Placeholder(key))
  {
    var p := Placeholder(key);
    forall i | 0 <= i <= |text| - |p|
      ensures !OccursAt(text, p, i)
    {
      assert text[i..i + |p|][0] == text[i];
    }
  }

  /** No other key's placeholder starts at the first character of K's placeholder,
      whatever follows it. */
  lemma PlaceholderNotAtStart(k1: string, k2: string, t: string)
    requires k1 != k2 && NoBraces(k1) && NoBraces(k2)
    ensures !OccursAt(Placeholder(k1) + t, Placeholder(k2), 0)
  {
    var p1, p2 := Placeholder(k1), Placeholder(k2);
    PlaceholderBraces(k1);
    PlaceholderBraces(k2);
    if |p2| <= |p1| {
      if OccursAt(p1 + t, p2, 0) {
        assert (p1 + t)[..|p2|] == p1[..|p2|];
        PlaceholderOccursAt(k1, k2, 0);
      }
    } else {
      assert (p1 + t)[|p1| - 2] == '}';
    }
  }

  /** After its two opening braces a placeholder of a brace-free key has no `{`. */
  lemma PlaceholderTail(k: string)
    requires NoBraces(k)
    ensures |Placeholder(k)| >= 2 && '{' !in Placeholder(k)[2..]
  {
    var p := Placeholder(k);
    PlaceholderBraces(k);
    forall j | 0 <= j < |p| - 2 ensures p[2..][j] != '{' {
      assert p[2..][j] == p[j + 2];
    }
  }

  /** Replacing another key's placeholder passes over K's placeholder and goes on
      with the text after it. */
  lemma ReplaceAllSkipPlaceholder(k1: string, k2: string, t: string, rep: string)
    requires k1 != k2 && NoBraces(k1) && NoBraces(k2)
    ensures ReplaceAll(Placeholder(k1) + t, Placeholder(k2), rep)
         == Placeholder(k1) + ReplaceAll(t, Placeholder(k2), rep)
  {
    var p1, p2 := Placeholder(k1), Placeholder(k2);
    var s := p1 + t;
    var s1 := s[1..];
    var r := ReplaceAll(t, p2, rep);
    assert s1 == p1[1..] + t;
    calc {
      ReplaceAll(s, p2, rep);
      { PlaceholderNotAtStart(k1, k2, t);
        ReplaceAllStep(s, p2, rep); }
      [p1[0]] + ReplaceAll(s1, p2, rep);
      { assert s1[1] == p1[2] == ' ' && p2[1] == '{';
        assert !OccursAt(s1, p2, 0);
        ReplaceAllStep(s1, p2, rep); }
      [p1[0]] + ([p1[1]] + ReplaceAll(s1[1..], p2, rep));
      { assert s1[1..] == p1[2..] + t;
        PlaceholderTail(k1);
        ReplaceAllPrefix(p1[2..], t, p2, rep); }
      [p1[0]] + ([p1[1]] + (p1[2..] + r));
      { assert p1 == [p1[0]] + ([p1[1]] + p1[2..]); }
      p1 + r;
    }
  }

  /** Replacing another key's placeholder leaves text made of K's placeholders and
      pieces without `{` unchanged. */
  lemma {:induction false} ReplaceAllJoinOther(parts: seq<string>, k1: string, k2: string, rep: string)
    requires k1 != k2 && NoBraces(k1) && NoBraces(k2)
    requires forall i :: 0 <= i < |parts| ==> '{' !in parts[i]
    ensures ReplaceAll(Join(parts, Placeholder(k1)), Placeholder(k2), rep) == Join(parts, Placeholder(k1))
    decreases |parts|
  {
    var p1, p2 := Placeholder(k1), Placeholder(k2);
    if |parts| == 1 {
      ReplaceAllPrefix(parts[0], [], p2, rep);
      assert parts[0] + [] == parts[0];
    } else if |parts| > 1 {
      var rest := Join(parts[1..], p1);
      calc {
        ReplaceAll(Join(parts, p1), p2, rep);
        { assert Join(parts, p1) == parts[0] + (p1 + rest); }
        ReplaceAll(parts[0] + (p1 + rest), p2, rep);
        { ReplaceAllPrefix(parts[0], p1 + rest, p2, rep); }
        parts[0] + ReplaceAll(p1 + rest, p2, rep);
        { ReplaceAllSkipPlaceholder(k1, k2, rest, rep); }
        parts[0] + (p1 + ReplaceAll(rest, p2, rep));
        { assert forall i :: 0 <= i < |parts| - 1 ==> parts[1..][i] == parts[i + 1];
          ReplaceAllJoinOther(parts[1..], k1, k2, rep); }
        parts[0] + (p1 + rest);
      }
    }
  }

  /** Every occurrence of K's placeholder in a parameter becomes K's trimmed output,
      when the order visits K, stored names carry no braces, neither the output nor
      the text around the placeholders holds `{`. The parameter is written as the
      pieces between the occurrences, joined by the placeholder. */
  lemma {:induction false} ExpandPlaceholders(order: seq<string>, store: Store, key: string, parts: seq<string>)
    requires key in store && key in order
    requires forall k :: k in store ==> NoBraces(k)
    requires '{' !in TrimSpace(store[key])
    requires forall i :: 0 <= i < |parts| ==> '{' !in parts[i]
    ensures Expand(order, store, Join(parts, Placeholder(key))) == Join(parts, TrimSpace(store[key]))
    decreases |order|
  {
    var v := TrimSpace(store[key]);
    if order[0] == key {
      ReplaceAllJoin(parts, Placeholder(key), v);
      JoinKeepsOut(parts, v, '{');
      var w := Join(parts, v);
      forall k | k in store ensures !Contains(w, Placeholder(k)) {
        NoPlaceholderWithoutBrace(w, k);
      }
      ExpandNoPlaceholder(order[1..], store, w);
    } else {
      if order[0] in store {
        ReplaceAllJoinOther(parts, key, order[0], TrimSpace(store[order[0]]));
      }
      ExpandPlaceholders(order[1..], store, key, parts);
    }
  }

  /** A parameter written as the pieces `parts` with the texts `slots` between them. */
  function Interleave(parts: seq<string>, slots: seq<string>): string
    requires |parts| == |slots| + 1
    decreases |slots|
  {
    if slots == [] then parts[0] else parts[0] + slots[0] + Interleave(parts[1..], slots[1..])
  }

  /** The first piece and the first slot, then the rest. */
  lemma InterleaveHead(parts: seq<string>, slots: seq<string>)
    requires |parts| == |slots| + 1 && slots != []
    ensures Interleave(parts, slots) == parts[0] + (slots[0] + Interleave(parts[1..], slots[1..]))
  {
  }

  /** The text of a slot for key `k` once the keys in `visited` have been visited: a
      stored key that has been visited has its trimmed output, any other its placeholder. */
  function SlotText(k: string, store: Store, visited: seq<string>): string {
    if k in store && k in visited then TrimSpace(store[k]) else Placeholder(k)
  }

  /** The slot texts of the keys `ks`. */
  function Slots(ks: seq<string>, store: Store, visited: seq<string>): (r: seq<string>)
    ensures |r| == |ks|
    ensures forall i :: 0 <= i < |ks| ==> r[i] == SlotText(ks[i], store, visited)
  {
    seq(|ks|, i requires 0 <= i < |ks| => SlotText(ks[i], store, visited))
  }

  /** What expansion promises for each placeholder: a stored key's placeholder becomes
      its trimmed output, an unstored key's placeholder stays as written. */
  function Resolved(ks: seq<string>, store: Store): (r: seq<string>)
    ensures |r| == |ks|
    ensures forall i :: 0 <= i < |ks| ==>
      r[i] == if ks[i] in store then TrimSpace(store[ks[i]]) else Placeholder(ks[i])
  {
    seq(|ks|, i requires 0 <= i < |ks| => if ks[i] in store then TrimSpace(store[ks[i]]) else Placeholder(ks[i]))
  }

  /** The conditions under which every placeholder of a parameter is expanded on its own:
      the pieces hold no `{`, no key holds a brace, and no output of a key in the
      parameter holds `{` once trimmed. */
  predicate Separable(parts: seq<string>, ks: seq<string>, store: Store) {
    && (forall i :: 0 <= i < |parts| ==> '{' !in parts[i])
    && (forall i :: 0 <= i < |ks| ==> NoBraces(ks[i]))
    && (forall k :: k in store ==> NoBraces(k))
    && (forall i :: 0 <= i < |ks| && ks[i] in store ==> '{' !in TrimSpace(store[ks[i]]))
  }

  lemma SeparableTail(parts: seq<string>, ks: seq<string>, store: Store)
    requires |parts| == |ks| + 1 && ks != [] && Separable(parts, ks, store)
    ensures Separable(parts[1..], ks[1..], store)
  {
    assert forall i :: 0 <= i < |parts| - 1 ==> parts[1..][i] == parts[i + 1];
    assert forall i :: 0 <= i < |ks| - 1 ==> ks[1..][i] == ks[i + 1];
  }

  /** A visit of stored key `j` over a piece, one slot and the rest: the piece is copied,
      the slot is replaced when it holds `j`'s placeholder and copied otherwise. */
  lemma ReplaceSlot(piece: string, k: string, store: Store, visited: seq<string>, j: string, rest: string)
    requires j in store && NoBraces(j) && NoBraces(k) && '{' !in piece
    requires k in store ==> '{' !in TrimSpace(store[k])
    ensures ReplaceAll(piece + (SlotText(k, store, visited) + rest), Placeholder(j), TrimSpace(store[j]))
         == piece + (SlotText(k, store, visited + [j]) + ReplaceAll(rest, Placeholder(j), TrimSpace(store[j])))
  {
    var pj, v := Placeholder(j), TrimSpace(store[j]);
    var slot := SlotText(k, store, visited);
    ReplaceAllPrefix(piece, slot + rest, pj, v);
    if k in store && k in visited {
      ReplaceAllPrefix(slot, rest, pj, v);
    } else if k == j {
      ReplaceAllLead(pj, rest, v);
    } else {
      ReplaceAllSkipPlaceholder(k, j, rest, v);
    }
  }

  /** One visit of a stored key `j` replaces exactly the slots holding its placeholder. */
  lemma {:induction false} SubstituteSlots(parts: seq<string>, ks: seq<string>, store: Store,
                                           visited: seq<string>, j: string)
    requires |parts| == |ks| + 1 && Separable(parts, ks, store)
    ensures Substitute(j, store, Interleave(parts, Slots(ks, store, visited)))
         == Interleave(parts, Slots(ks, store, visited + [j]))
    decreases |ks|
  {
    var before, after := Slots(ks, store, visited), Slots(ks, store, visited + [j]);
    if j !in store {
      assert before == after;
    } else if ks == [] {
      ReplaceAllPrefix(parts[0], [], Placeholder(j), TrimSpace(store[j]));
      assert parts[0] + [] == parts[0];
    } else {
      var pj, v := Placeholder(j), TrimSpace(store[j]);
      assert Slots(ks[1..], store, visited) == before[1..];
      assert Slots(ks[1..], store, visited + [j]) == after[1..];
      var rest := Interleave(parts[1..], before[1..]);
      calc {
        ReplaceAll(Interleave(parts, before), pj, v);
        { InterleaveHead(parts, before); }
        ReplaceAll(parts[0] + (before[0] + rest), pj, v);
        { ReplaceSlot(parts[0], ks[0], store, visited, j, rest); }
        parts[0] + (after[0] + ReplaceAll(rest, pj, v));
        { SeparableTail(parts, ks, store);
          SubstituteSlots(parts[1..], ks[1..], store, visited, j); }
        parts[0] + (after[0] + Interleave(parts[1..], after[1..]));
        { InterleaveHead(parts, after); }
        Interleave(parts, after);
      }
    }
  }

  /** The visits of an order carry the slots from `visited` to `visited + order`. */
  lemma {:induction false} ExpandSlots(order: seq<string>, parts: seq<string>, ks: seq<string>,
                                       store: Store, visited: seq<string>)
    requires |parts| == |ks| + 1 && Separable(parts, ks, store)
    ensures Expand(order, store, Interleave(parts, Slots(ks, store, visited)))
         == Interleave(parts, Slots(ks, store, visited + order))
    decreases |order|
  {
    if order == [] {
      assert visited + order == visited;
    } else {
      SubstituteSlots(parts, ks, store, visited, order[0]);
      ExpandSlots(order[1..], parts, ks, store, visited + [order[0]]);
      assert visited + [order[0]] + order[1..] == visited + order;
    }
  }

  /** Every placeholder of a parameter is expanded on its own: in a parameter made of
      pieces without `{` and placeholders of the keys `ks`, each stored key's placeholder
      becomes its trimmed output and each unstored key's placeholder stays as written,
      when the order visits every stored key of `ks`. */
  lemma ExpandEachPlaceholder(order: seq<string>, store: Store, parts: seq<string>, ks: seq<string>)
    requires |parts| == |ks| + 1 && Separable(parts, ks, store)
    requires forall i :: 0 <= i < |ks| && ks[i] in store ==> ks[i] in order
    ensures Expand(order, store, Interleave(parts, seq(|ks|, i requires 0 <= i < |ks| => Placeholder(ks[i]))))
         == Interleave(parts, Resolved(ks, store))
  {
    assert Slots(ks, store, []) == seq(|ks|, i requires 0 <= i < |ks| => Placeholder(ks[i]));
    ExpandSlots(order, parts, ks, store, []);
    assert Slots(ks, store, [] + order) == Resolved(ks, store);
  }

  /** Cross-step substitution: a parameter that is exactly K's placeholder becomes K's
      trimmed output, when the order visits K, stored names carry no braces and the
      output itself holds no `{`. */
  lemma ExpandSinglePlaceholder(order: seq<string>, store: Store, key: string)
    requires key in store && key in order
    requires forall k :: k in store ==> NoBraces(k)
    requires '{' !in TrimSpace(store[key])
    ensures Expand(order, store, Placeholder(key)) == TrimSpace(store[key])
  {
    var p, v := Placeholder(key), TrimSpace(store[key]);
    JoinPair("", "", p);
    assert "" + p + "" == p;
    JoinPair("", "", v);
    assert "" + v + "" == v;
    ExpandPlaceholders(order, store, key, ["", ""]);
  }

  /** A placeholder naming a group with no stored output is left verbatim. */
  lemma ExpandUnstoredPlaceholder(order: seq<string>, store: Store, key: string)
    requires key !in store && NoBraces(key)
    requires forall k :: k in store ==> NoBraces(k)
    ensures Expand(order, store, Placeholder(key)) == Placeholder(key)
  {
    forall k | k in store ensures !Contains(Placeholder(key), Placeholder(k)) {
      PlaceholderDistinct(key, k);
    }
    ExpandNoPlaceholder(order, store, Placeholder(key));
  }

  /** A placeholder has no surrounding white space, so trimming keeps it whole. */
  lemma PlaceholderTrimmed(k: string)
    ensures TrimSpace(Placeholder(k)) == Placeholder(k)
  {
    var p := Placeholder(k);
    assert p[|p| - 1] == '}';
    assert p == [] + p + [];
    TrimSpaceUnique([], p, []);
  }

  /** A visit of a stored key turns exactly its placeholder into its trimmed output. */
  lemma SubstituteWhole(key: string, store: Store)
    requires key in store
    ensures Substitute(key, store, Placeholder(key)) == TrimSpace(store[key])
  {
    ReplaceAllWhole(Placeholder(key), TrimSpace(store[key]));
  }

  /** Two visits in a row. */
  lemma ExpandTwo(k1: string, k2: string, store: Store, text: string)
    ensures Expand([k1, k2], store, text) == Substitute(k2, store, Substitute(k1, store, text))
  {
    var t1 := Substitute(k1, store, text);
    assert [k1, k2][1..] == [k2] && [k2][1..] == [];
    assert Expand([k1, k2], store, text) == Expand([k2], store, t1);
    assert Expand([k2], store, t1) == Expand([], store, Substitute(k2, store, t1));
  }

  /** Visiting A rewrites A's placeholder to B's placeholder, which visiting B then
      rewrites to B's trimmed output. */
  lemma ChainedForward(a: string, b: string, store: Store)
    requires a in store && b in store && store[a] == Placeholder(b)
    ensures Expand([a, b], store, Placeholder(a)) == TrimSpace(store[b])
  {
    ExpandTwo(a, b, store, Placeholder(a));
    SubstituteWhole(a, store);
    PlaceholderTrimmed(b);
    SubstituteWhole(b, store);
  }

  /** Visiting B first finds no placeholder of B in A's placeholder; visiting A then
      leaves B's placeholder. */
  lemma ChainedBackward(a: string, b: string, store: Store)
    requires a != b && NoBraces(a) && NoBraces(b)
    requires a in store && b in store && store[a] == Placeholder(b)
    ensures Expand([b, a], store, Placeholder(a)) == Placeholder(b)
  {
    ExpandTwo(b, a, store, Placeholder(a));
    PlaceholderDistinct(a, b);
    ReplaceAllAbsent(Placeholder(a), Placeholder(b), TrimSpace(store[b]));
    SubstituteWhole(a, store);
    PlaceholderTrimmed(b);
  }

  /** Substituted text is rescanned by later visits, so the result depends on the order:
      when A's output is B's placeholder and B's output holds no `{`, visiting A then B yields B's trimmed output,
      while visiting B then A leaves B's placeholder, and the two differ. */
  lemma ExpandOrderDependent(a: string, b: string, store: Store)
    requires a != b && NoBraces(a) && NoBraces(b)
    requires a in store && b in store && store[a] == Placeholder(b)
    requires '{' !in store[b]
    ensures Expand([a, b], store, Placeholder(a)) == TrimSpace(store[b])
    ensures Expand([b, a], store, Placeholder(a)) == Placeholder(b)
    ensures TrimSpace(store[b]) != Placeholder(b)
  {
    ChainedForward(a, b, store);
    ChainedBackward(a, b, store);
    TrimSpaceKeepsOut(store[b], '{');
    assert Placeholder(b)[0] == '{';
  }
}
