/**
 m-of-n signatures: the OP_CHECKMULTISIG loop and CombineMultisig of src/script.cpp.

 The loop tries each signature against the keys in one pass and never goes back.  It is
 shown to succeed exactly when the signatures can be assigned to different keys in order.
 Signature verification is a parameter.
 */
module MultiSig {
  import opened ScriptCode
  import opened Sequences
  import opened Wrappers

  /** The greedy pass. */
  ghost function Greedy(ok: (Bytes, Bytes) -> bool, sigs: seq<Bytes>, keys: seq<Bytes>): bool
    decreases |keys|
  {
    if |sigs| > |keys| then false
    else if sigs == [] then true
    else Greedy(ok, if ok(sigs[0], keys[0]) then sigs[1..] else sigs, keys[1..])
  }

  /** An assignment of every signature to a key that verifies it, keeping the order. */
  ghost predicate Assigns(ok: (Bytes, Bytes) -> bool, sigs: seq<Bytes>, keys: seq<Bytes>, at: seq<int>) {
    && |at| == |sigs|
    && (forall i :: 0 <= i < |at| ==> 0 <= at[i] < |keys| && ok(sigs[i], keys[at[i]]))
    && (forall i, j :: 0 <= i < j < |at| ==> at[i] < at[j])
  }

  ghost predicate Assignable(ok: (Bytes, Bytes) -> bool, sigs: seq<Bytes>, keys: seq<Bytes>) {
    exists at :: Assigns(ok, sigs, keys, at)
  }

  /** An order-preserving assignment needs at least as many keys as signatures. */
  lemma {:induction false} AssignsFits(ok: (Bytes, Bytes) -> bool, sigs: seq<Bytes>, keys: seq<Bytes>, at: seq<int>, i: nat)
    requires Assigns(ok, sigs, keys, at) && i < |at|
    ensures at[i] >= i && |keys| - at[i] >= |at| - i
    decreases |at|
  {
    AtLeastIndex(ok, sigs, keys, at, i);
    AtMostIndex(ok, sigs, keys, at, i);
  }

  lemma {:induction false} AtLeastIndex(ok: (Bytes, Bytes) -> bool, sigs: seq<Bytes>, keys: seq<Bytes>, at: seq<int>, i: nat)
    requires Assigns(ok, sigs, keys, at) && i < |at|
    ensures at[i] >= i
  {
    if i > 0 { AtLeastIndex(ok, sigs, keys, at, i - 1); }
  }

  lemma {:induction false} AtMostIndex(ok: (Bytes, Bytes) -> bool, sigs: seq<Bytes>, keys: seq<Bytes>, at: seq<int>, i: nat)
    requires Assigns(ok, sigs, keys, at) && i < |at|
    ensures |keys| - at[i] >= |at| - i
    decreases |at| - i
  {
    if i + 1 < |at| { AtMostIndex(ok, sigs, keys, at, i + 1); }
  }

  /** Dropping the first key moves every position down by one. */
  function Shifted(at: seq<int>, d: int): (r: seq<int>)
    ensures |r| == |at| && forall i :: 0 <= i < |at| ==> r[i] == at[i] + d
  {
    if at == [] then [] else [at[0] + d] + Shifted(at[1..], d)
  }

  /** Completeness of the greedy pass: it succeeds exactly when some assignment exists. */
  lemma {:induction false} GreedyComplete(ok: (Bytes, Bytes) -> bool, sigs: seq<Bytes>, keys: seq<Bytes>)
    ensures Greedy(ok, sigs, keys) <==> Assignable(ok, sigs, keys)
    decreases |keys|
  {
    if |sigs| > |keys| {
      forall at ensures !Assigns(ok, sigs, keys, at) {
        if Assigns(ok, sigs, keys, at) { AssignsFits(ok, sigs, keys, at, 0); }
      }
    } else if sigs == [] {
      assert Assigns(ok, sigs, keys, []);
    } else {
      var rest := if ok(sigs[0], keys[0]) then sigs[1..] else sigs;
      GreedyComplete(ok, rest, keys[1..]);
      if Assignable(ok, rest, keys[1..]) {
        var at :| Assigns(ok, rest, keys[1..], at);
        ExtendAssignment(ok, sigs, keys, at);
      }
      if Assignable(ok, sigs, keys) {
        var at :| Assigns(ok, sigs, keys, at);
        ShrinkAssignment(ok, sigs, keys, at);
      }
    }
  }

  lemma ExtendAssignment(ok: (Bytes, Bytes) -> bool, sigs: seq<Bytes>, keys: seq<Bytes>, at: seq<int>)
    requires sigs != [] && keys != []
    requires Assigns(ok, if ok(sigs[0], keys[0]) then sigs[1..] else sigs, keys[1..], at)
    ensures Assignable(ok, sigs, keys)
  {
    if ok(sigs[0], keys[0]) {
      UseFirst(ok, sigs, keys, at);
    } else {
      SkipFirst(ok, sigs, keys, at);
    }
  }

  lemma SkipFirst(ok: (Bytes, Bytes) -> bool, sigs: seq<Bytes>, keys: seq<Bytes>, at: seq<int>)
    requires keys != [] && Assigns(ok, sigs, keys[1..], at)
    ensures Assigns(ok, sigs, keys, Shifted(at, 1))
  {
    hide Shifted;
    var up := Shifted(at, 1);
    forall i | 0 <= i < |up| ensures 0 <= up[i] < |keys| && ok(sigs[i], keys[up[i]]) {
      assert keys[up[i]] == keys[1..][at[i]];
    }
  }

  lemma UseFirst(ok: (Bytes, Bytes) -> bool, sigs: seq<Bytes>, keys: seq<Bytes>, at: seq<int>)
    requires sigs != [] && keys != [] && ok(sigs[0], keys[0]) && Assigns(ok, sigs[1..], keys[1..], at)
    ensures Assigns(ok, sigs, keys, [0] + Shifted(at, 1))
  {
    SkipFirst(ok, sigs[1..], keys, at);
    hide Shifted;
    var up := Shifted(at, 1);
    var longer := [0] + up;
    forall i | 0 <= i < |longer| ensures 0 <= longer[i] < |keys| && ok(sigs[i], keys[longer[i]]) {
      if i > 0 { assert longer[i] == up[i - 1] && sigs[i] == sigs[1..][i - 1]; }
    }
  }

  /** If the first key verifies the first signature, using it loses nothing. */
  lemma ShrinkAssignment(ok: (Bytes, Bytes) -> bool, sigs: seq<Bytes>, keys: seq<Bytes>, at: seq<int>)
    requires sigs != [] && keys != [] && Assigns(ok, sigs, keys, at)
    ensures Assignable(ok, if ok(sigs[0], keys[0]) then sigs[1..] else sigs, keys[1..])
  {
    if ok(sigs[0], keys[0]) {
      DropSig(ok, sigs, keys, at);
      DropKey(ok, sigs[1..], keys, at[1..]);
    } else {
      forall i | 0 <= i < |at| ensures at[i] >= 1 { assert i > 0 ==> at[0] < at[i]; }
      DropKey(ok, sigs, keys, at);
    }
  }

  lemma DropSig(ok: (Bytes, Bytes) -> bool, sigs: seq<Bytes>, keys: seq<Bytes>, at: seq<int>)
    requires sigs != [] && Assigns(ok, sigs, keys, at)
    ensures Assigns(ok, sigs[1..], keys, at[1..]) && forall i :: 0 <= i < |at[1..]| ==> at[1..][i] >= 1
  {
    forall i | 0 <= i < |at[1..]| ensures at[1..][i] >= 1 { assert at[0] < at[i + 1]; }
  }

  lemma DropKey(ok: (Bytes, Bytes) -> bool, sigs: seq<Bytes>, keys: seq<Bytes>, at: seq<int>)
    requires keys != [] && Assigns(ok, sigs, keys, at) && forall i :: 0 <= i < |at| ==> at[i] >= 1
    ensures Assigns(ok, sigs, keys[1..], Shifted(at, -1))
  {
    hide Shifted;
    var b := Shifted(at, -1);
    forall i | 0 <= i < |b| ensures 0 <= b[i] < |keys[1..]| && ok(sigs[i], keys[1..][b[i]]) {
      assert b[i] == at[i] - 1 && keys[1..][b[i]] == keys[at[i]];
    }
  }

  function BackwardsAt(at: seq<int>, n: int): (r: seq<int>)
    ensures |r| == |at| && forall i :: 0 <= i < |at| ==> r[i] == n - 1 - at[|at| - 1 - i]
  {
    if at == [] then [] else [n - 1 - at[|at| - 1]] + BackwardsAt(at[..|at| - 1], n)
  }

  /** The stack presents both lists last element first; that makes no difference. */
  lemma AssignableBackwards(ok: (Bytes, Bytes) -> bool, sigs: seq<Bytes>, keys: seq<Bytes>, at: seq<int>)
    requires Assigns(ok, sigs, keys, at)
    ensures Assignable(ok, Reversed(sigs), Reversed(keys))
  {
    hide Reversed, BackwardsAt;
    var b, n := BackwardsAt(at, |keys|), |at|;
    forall i | 0 <= i < n ensures 0 <= b[i] < |keys| && ok(Reversed(sigs)[i], Reversed(keys)[b[i]]) {
      BackwardsFits(ok, sigs, keys, at, i, n - 1 - i);
    }
    AscendingBackwards(at, |keys|);
    assert Assigns(ok, Reversed(sigs), Reversed(keys), b);
  }

  lemma BackwardsFits(ok: (Bytes, Bytes) -> bool, sigs: seq<Bytes>, keys: seq<Bytes>, at: seq<int>, i: nat, j: nat)
    requires |at| == |sigs| && i < |at| && j == |at| - 1 - i && 0 <= at[j] < |keys| && ok(sigs[j], keys[at[j]])
    ensures 0 <= BackwardsAt(at, |keys|)[i] < |keys|
    ensures ok(Reversed(sigs)[i], Reversed(keys)[BackwardsAt(at, |keys|)[i]])
  {
    hide Reversed, BackwardsAt;
    var l := BackwardsAt(at, |keys|)[i];
    assert l == |keys| - 1 - at[j];
    BackwardsPair(ok, sigs, keys, i, j, l, at[j]);
  }

  lemma BackwardsPair(ok: (Bytes, Bytes) -> bool, sigs: seq<Bytes>, keys: seq<Bytes>, i: nat, j: nat, l: nat, k: nat)
    requires j < |sigs| && k < |keys| && ok(sigs[j], keys[k]) && i == |sigs| - 1 - j && l == |keys| - 1 - k
    ensures ok(Reversed(sigs)[i], Reversed(keys)[l])
  {
    hide Reversed;
    var sig, key := Reversed(sigs)[i], Reversed(keys)[l];
    assert sig == sigs[j];
    assert key == keys[k];
  }

  lemma AscendingBackwards(at: seq<int>, n: int)
    requires forall i, j :: 0 <= i < j < |at| ==> at[i] < at[j]
    ensures forall i, j :: 0 <= i < j < |at| ==> BackwardsAt(at, n)[i] < BackwardsAt(at, n)[j]
  {
    hide BackwardsAt;
    var b := BackwardsAt(at, n);
    forall i, j | 0 <= i < j < |at| ensures b[i] < b[j] {
      assert at[|at| - 1 - j] < at[|at| - 1 - i];
    }
  }

  /** The loop over the stack: `isig` and `ikey` count from the top, and `stack[|stack| - i]` is the i-th element
      from the top. */
  method CheckLoop(ok: (Bytes, Bytes) -> bool, stack: seq<Bytes>, isig0: nat, nSigs: nat, ikey0: nat, nKeys: nat) returns (fSuccess: bool)
    requires nSigs <= nKeys && 1 <= isig0 && 1 <= ikey0 && isig0 + nSigs <= |stack| + 1 && ikey0 + nKeys <= |stack| + 1
    ensures fSuccess <==> Assignable(ok, FromTop(stack, isig0, nSigs), FromTop(stack, ikey0, nKeys))
  {
    hide Assignable;
    fSuccess := true;
    var isig, ikey, nSigsCount, nKeysCount := isig0, ikey0, nSigs, nKeys;
    ghost var goal := Greedy(ok, FromTop(stack, isig0, nSigs), FromTop(stack, ikey0, nKeys));
    GreedyComplete(ok, FromTop(stack, isig0, nSigs), FromTop(stack, ikey0, nKeys));
    while fSuccess && nSigsCount > 0
      invariant isig + nSigsCount == isig0 + nSigs && ikey + nKeysCount == ikey0 + nKeys && isig >= isig0 && ikey >= ikey0
      invariant nSigsCount >= 0 && nKeysCount >= 0
      invariant fSuccess ==> nSigsCount <= nKeysCount
      invariant fSuccess ==> goal == Greedy(ok, FromTop(stack, isig, nSigsCount), FromTop(stack, ikey, nKeysCount))
      invariant !fSuccess ==> !goal
      decreases nKeysCount
    {
      var vchSig, vchPubKey := stack[|stack| - isig], stack[|stack| - ikey];
      FromTopRest(stack, isig, nSigsCount);
      FromTopRest(stack, ikey, nKeysCount);
      var fOk := ok(vchSig, vchPubKey);
      if fOk {
        isig := isig + 1;
        nSigsCount := nSigsCount - 1;
      }
      ikey := ikey + 1;
      nKeysCount := nKeysCount - 1;
      if nSigsCount > nKeysCount {
        fSuccess := false;
      }
    }
  }

  /** `count` stack elements, from the i-th from the top downwards. */
  function FromTop(stack: seq<Bytes>, i: nat, count: nat): (r: seq<Bytes>)
    requires 1 <= i && i + count <= |stack| + 1
    ensures |r| == count && forall k :: 0 <= k < count ==> r[k] == stack[|stack| - i - k]
  {
    seq(count, k requires 0 <= k < count => stack[|stack| - i - k])
  }

  lemma FromTopRest(stack: seq<Bytes>, i: nat, count: nat)
    requires 1 <= i && 0 < count && i + count <= |stack| + 1
    ensures FromTop(stack, i, count)[0] == stack[|stack| - i]
    ensures FromTop(stack, i, count)[1..] == FromTop(stack, i + 1, count - 1)
  {
  }

  // ---- Combining partial signatures ----

  function PushAll(values: seq<Bytes>): Bytes {
    if values == [] then [] else Push(values[0]) + PushAll(values[1..])
  }

  /** Matches the signatures to the keys: every key gets at most one signature, and every signature is tried on the
      keys in order until one that has none yet verifies it. */
  method MatchSigs(checkSig: (Bytes, Bytes) -> bool, allsigs: set<Bytes>, keys: seq<Bytes>) returns (sigs: map<Bytes, Bytes>)
    ensures forall key :: key in sigs ==> key in keys && sigs[key] in allsigs && checkSig(sigs[key], key)
    ensures forall sig, key :: sig in allsigs && key in keys && checkSig(sig, key) ==> key in sigs || sig in sigs.Values
  {
    sigs := map[];
    var rest := allsigs;
    while rest != {}
      invariant rest <= allsigs
      invariant forall key :: key in sigs ==> key in keys && sigs[key] in allsigs - rest && checkSig(sigs[key], key)
      invariant forall sig, key :: sig in allsigs - rest && key in keys && checkSig(sig, key) ==> key in sigs || sig in sigs.Values
      decreases rest
    {
      var sig :| sig in rest;
      ghost var before := sigs;
      var i := 0;
      var done := false;
      while i < |keys| && !done
        invariant 0 <= i <= |keys|
        invariant !done ==> sigs == before && forall k :: 0 <= k < i ==> keys[k] in sigs || !checkSig(sig, keys[k])
        invariant done ==> exists key :: key in keys && key !in before && checkSig(sig, key) && sigs == before[key := sig]
        decreases |keys| - i, !done
      {
        var pubkey := keys[i];
        if pubkey !in sigs && checkSig(sig, pubkey) {
          sigs := sigs[pubkey := sig];
          done := true;
        } else {
          i := i + 1;
        }
      }
      rest := rest - {sig};
      KeepsMatches(checkSig, before, sigs, sig, keys, done);
      assert allsigs - rest == (allsigs - (rest + {sig})) + {sig};
    }
  }

  lemma KeepsMatches(checkSig: (Bytes, Bytes) -> bool, before: map<Bytes, Bytes>, sigs: map<Bytes, Bytes>, sig: Bytes, keys: seq<Bytes>, done: bool)
    requires !done ==> sigs == before && forall k :: 0 <= k < |keys| ==> keys[k] in sigs || !checkSig(sig, keys[k])
    requires done ==> exists key :: key in keys && key !in before && checkSig(sig, key) && sigs == before[key := sig]
    ensures before.Values <= sigs.Values
    ensures done ==> sig in sigs.Values
    ensures forall key :: key in keys && checkSig(sig, key) ==> key in sigs || sig in sigs.Values
  {
    if done {
      var key :| key in keys && key !in before && checkSig(sig, key) && sigs == before[key := sig];
      assert key in sigs && sigs[key] == sig;
      forall v | v in before.Values ensures v in sigs.Values {
        var k :| k in before && before[k] == v;
        assert k in sigs && sigs[k] == v;
      }
    }
  }

  function NonEmpty(sigs: seq<Bytes>): set<Bytes> {
    set s | s in sigs && s != []
  }

  /** What has been used after the first `i` keys: the signatures of those that have one, in order. */
  ghost predicate Collected(checkSig: (Bytes, Bytes) -> bool, sigs: map<Bytes, Bytes>, keys: seq<Bytes>, i: nat, used: seq<Bytes>, at: seq<int>) {
    && i <= |keys|
    && Assigns(checkSig, used, keys, at) && (forall k :: 0 <= k < |at| ==> at[k] < i)
    && (forall s :: s in used ==> s in sigs.Values)
    && (forall k :: 0 <= k < i && keys[k] in sigs ==> sigs[keys[k]] in used)
    && (forall k :: 0 <= k < i && keys[k] in sigs ==> k in at)
  }

  lemma CollectNext(checkSig: (Bytes, Bytes) -> bool, sigs: map<Bytes, Bytes>, keys: seq<Bytes>, i: nat, used: seq<Bytes>, at: seq<int>)
    requires i < |keys| && Collected(checkSig, sigs, keys, i, used, at)
    requires keys[i] in sigs ==> checkSig(sigs[keys[i]], keys[i])
    ensures keys[i] !in sigs ==> Collected(checkSig, sigs, keys, i + 1, used, at)
    ensures keys[i] in sigs ==> Collected(checkSig, sigs, keys, i + 1, used + [sigs[keys[i]]], at + [i])
  {
    if keys[i] in sigs {
      var sig := sigs[keys[i]];
      var more, later := used + [sig], at + [i];
      forall k | 0 <= k < |more| ensures 0 <= later[k] < |keys| && checkSig(more[k], keys[later[k]]) {
        if k < |used| { assert more[k] == used[k] && later[k] == at[k]; }
      }
      forall k | 0 <= k < i + 1 && keys[k] in sigs ensures sigs[keys[k]] in more {
        if k < i { assert sigs[keys[k]] in used; } else { assert more[|used|] == sig; }
      }
      forall k | 0 <= k < i + 1 && keys[k] in sigs ensures k in later {
        if k < i { assert k in at; } else { assert later[|at|] == k; }
      }
    }
  }

  /** When all keys have been gone through, no verifying pair is missed altogether. */
  lemma CollectedAll(checkSig: (Bytes, Bytes) -> bool, allsigs: set<Bytes>, sigs: map<Bytes, Bytes>, keys: seq<Bytes>, used: seq<Bytes>, at: seq<int>)
    requires Collected(checkSig, sigs, keys, |keys|, used, at)
    requires forall key :: key in sigs ==> key in keys && checkSig(sigs[key], key)
    requires forall sig, key :: sig in allsigs && key in keys && checkSig(sig, key) ==> key in sigs || sig in sigs.Values
    ensures forall sig, key :: sig in allsigs && key in keys && checkSig(sig, key) ==>
      sig in used || exists other :: other in used && checkSig(other, key)
  {
    hide Assigns;
    forall sig, key | sig in allsigs && key in keys && checkSig(sig, key)
      ensures sig in used || exists other :: other in used && checkSig(other, key)
    {
      assert key in sigs || sig in sigs.Values;
      if key in sigs {
        assert sigs[key] in used;
      } else {
        var k :| k in sigs && sigs[k] == sig;
      }
    }
  }

  /** No signature verifies under two different keys. */
  ghost predicate OneKeyEach(check: (Bytes, Bytes) -> bool, sigs: seq<Bytes>, keys: seq<Bytes>) {
    forall s, a, b :: s in sigs && a in keys && b in keys && check(s, a) && check(s, b) ==> a == b
  }

  /** Signatures from the two lists; an empty value is none. */
  predicate FromBoth(other: seq<Bytes>, sigs1: seq<Bytes>, sigs2: seq<Bytes>) {
    forall s :: s in other ==> s in sigs1 + sigs2 && s != []
  }

  lemma AscendingWithin(a: seq<int>, b: seq<int>)
    requires forall i, j :: 0 <= i < j < |a| ==> a[i] < a[j]
    requires forall i :: 0 <= i < |a| ==> a[i] in b
    ensures |a| <= |b|
  {
    Cardinality(a);
    var s, t := set x | x in a, set x | x in b;
    SetOfSeq(b);
    assert t == s + (t - s);
  }

  lemma {:induction false} Cardinality(a: seq<int>)
    requires forall i, j :: 0 <= i < j < |a| ==> a[i] < a[j]
    ensures |set x | x in a| == |a|
  {
    if a != [] {
      var rest := a[..|a| - 1];
      Cardinality(rest);
      assert a == rest + [a[|a| - 1]];
      assert (set x | x in a) == (set x | x in rest) + {a[|a| - 1]};
    }
  }

  lemma {:induction false} SetOfSeq(b: seq<int>)
    ensures |set x | x in b| <= |b|
  {
    if b != [] {
      SetOfSeq(b[1..]);
      assert (set x | x in b) == {b[0]} + set x | x in b[1..];
    }
  }

  /** Where no signature verifies under two keys, no assignable list of the given signatures is longer than what has
      been collected from all keys. */
  lemma CollectedMost(checkSig: (Bytes, Bytes) -> bool, allsigs: set<Bytes>, sigs: map<Bytes, Bytes>, keys: seq<Bytes>, used: seq<Bytes>, at: seq<int>,
                      other: seq<Bytes>)
    requires Collected(checkSig, sigs, keys, |keys|, used, at)
    requires forall key :: key in sigs ==> key in keys && checkSig(sigs[key], key)
    requires forall sig, key :: sig in allsigs && key in keys && checkSig(sig, key) ==> key in sigs || sig in sigs.Values
    requires Assignable(checkSig, other, keys) && (forall s :: s in other ==> s in allsigs) && OneKeyEach(checkSig, other, keys)
    ensures |other| <= |used|
  {
    var bt :| Assigns(checkSig, other, keys, bt);
    forall i | 0 <= i < |bt| ensures bt[i] in at {
      var sig, key := other[i], keys[bt[i]];
      assert sig in other && checkSig(sig, key);
      assert key in sigs || sig in sigs.Values;
      forall k | k in sigs && sigs[k] == sig ensures k == key { assert checkSig(sig, k); }
      assert key in sigs;
    }
    AscendingWithin(bt, at);
  }

  lemma CollectedMostOf(checkSig: (Bytes, Bytes) -> bool, allsigs: set<Bytes>, sigs: map<Bytes, Bytes>, keys: seq<Bytes>, used: seq<Bytes>, at: seq<int>,
                        sigs1: seq<Bytes>, sigs2: seq<Bytes>)
    requires Collected(checkSig, sigs, keys, |keys|, used, at)
    requires forall key :: key in sigs ==> key in keys && checkSig(sigs[key], key)
    requires forall sig, key :: sig in allsigs && key in keys && checkSig(sig, key) ==> key in sigs || sig in sigs.Values
    requires forall s :: s in allsigs <==> s in sigs1 + sigs2 && s != []
    ensures forall other :: FromBoth(other, sigs1, sigs2) && Assignable(checkSig, other, keys) && OneKeyEach(checkSig, other, keys) ==>
      |other| <= |used|
  {
    hide Collected, Assignable, OneKeyEach;
    forall other | FromBoth(other, sigs1, sigs2) && Assignable(checkSig, other, keys) && OneKeyEach(checkSig, other, keys)
      ensures |other| <= |used|
    {
      CollectedMost(checkSig, allsigs, sigs, keys, used, at, other);
    }
  }

  /** Merges two sets of signatures into one signature script: one signature for each of the first keys that have
      one, in key order, padded with empty values. */
  method CombineMultisig(checkSig: (Bytes, Bytes) -> bool, nSigsRequired: nat, keys: seq<Bytes>, sigs1: seq<Bytes>, sigs2: seq<Bytes>)
    returns (result: Bytes, ghost used: seq<Bytes>)
    ensures |used| <= nSigsRequired && result == PushAll([[]] + used + Repeat<Bytes>([], nSigsRequired - |used|))
    ensures forall s :: s in used ==> s in sigs1 + sigs2 && s != []
    ensures Assignable(checkSig, used, keys)
    ensures |used| < nSigsRequired ==>
      forall sig, key :: sig in sigs1 + sigs2 && sig != [] && key in keys && checkSig(sig, key) ==>
        sig in used || exists other :: other in used && checkSig(other, key)
    ensures |used| < nSigsRequired ==>
      forall other :: FromBoth(other, sigs1, sigs2) && Assignable(checkSig, other, keys) && OneKeyEach(checkSig, other, keys) ==>
        |other| <= |used|
  {
    var allsigs := NonEmpty(sigs1) + NonEmpty(sigs2);
    var sigs := MatchSigs(checkSig, allsigs, keys);
    hide NonEmpty, PushAll, Push, Collected, Assignable, Assigns, OneKeyEach, FromBoth;
    PushOne([]);
    result, used := Push([]), [];
    ghost var at: seq<int> := [];
    CollectNothing(checkSig, sigs, keys);
    var nSigsHave, i := 0, 0;
    assert PushAll([[]] + used) == result by { assert [[]] + used == [[]]; }
    while i < |keys| && nSigsHave < nSigsRequired
      invariant 0 <= i <= |keys| && nSigsHave == |used| <= nSigsRequired
      invariant result == PushAll([[]] + used)
      invariant Collected(checkSig, sigs, keys, i, used, at)
    {
      CollectNext(checkSig, sigs, keys, i, used, at);
      if keys[i] in sigs {
        var sig := sigs[keys[i]];
        PushLast([[]] + used, sig);
        assert [[]] + (used + [sig]) == ([[]] + used) + [sig];
        result := result + Push(sig);
        used, at := used + [sig], at + [i];
        nSigsHave := nSigsHave + 1;
      }
      i := i + 1;
    }
    if |used| < nSigsRequired { CollectedAll(checkSig, allsigs, sigs, keys, used, at); }
    CollectedUses(checkSig, sigs, keys, i, used, at);
    AllSigs(sigs1, sigs2);
    if |used| < nSigsRequired { CollectedMostOf(checkSig, allsigs, sigs, keys, used, at, sigs1, sigs2); }
    result := PadWithNothing(result, nSigsHave, nSigsRequired, used);
  }

  lemma CollectNothing(checkSig: (Bytes, Bytes) -> bool, sigs: map<Bytes, Bytes>, keys: seq<Bytes>)
    ensures Collected(checkSig, sigs, keys, 0, [], [])
  {
  }

  lemma CollectedUses(checkSig: (Bytes, Bytes) -> bool, sigs: map<Bytes, Bytes>, keys: seq<Bytes>, i: nat, used: seq<Bytes>, at: seq<int>)
    requires Collected(checkSig, sigs, keys, i, used, at)
    ensures Assignable(checkSig, used, keys) && forall s :: s in used ==> exists key :: key in sigs && sigs[key] == s
  {
    forall s | s in used ensures exists key :: key in sigs && sigs[key] == s { assert s in sigs.Values; }
  }

  /** Fills the missing signatures with empty values. */
  method PadWithNothing(script: Bytes, nSigsHave: nat, nSigsRequired: nat, ghost used: seq<Bytes>) returns (result: Bytes)
    requires nSigsHave <= nSigsRequired && script == PushAll([[]] + used)
    ensures result == PushAll([[]] + used + Repeat<Bytes>([], nSigsRequired - nSigsHave))
  {
    hide PushAll, Push;
    result := script;
    var z := nSigsHave;
    assert [[]] + used + Repeat<Bytes>([], 0) == [[]] + used;
    while z < nSigsRequired
      invariant nSigsHave <= z <= nSigsRequired
      invariant result == PushAll([[]] + used + Repeat<Bytes>([], z - nSigsHave))
    {
      PushLast([[]] + used + Repeat<Bytes>([], z - nSigsHave), []);
      assert [[]] + used + Repeat<Bytes>([], z - nSigsHave) + [[]] == [[]] + used + Repeat<Bytes>([], z + 1 - nSigsHave);
      result := result + Push([]);
      z := z + 1;
    }
  }

  lemma AllSigs(sigs1: seq<Bytes>, sigs2: seq<Bytes>)
    ensures forall s :: s in NonEmpty(sigs1) + NonEmpty(sigs2) <==> s in sigs1 + sigs2 && s != []
  {
  }

  lemma PushOne(v: Bytes)
    ensures PushAll([v]) == Push(v)
  {
    assert [v][1..] == [];
  }

  lemma {:induction false} PushLast(values: seq<Bytes>, v: Bytes)
    ensures PushAll(values + [v]) == PushAll(values) + Push(v)
  {
    if values == [] {
      assert values + [v] == [v];
      PushOne(v);
    } else {
      assert (values + [v])[1..] == values[1..] + [v];
      PushLast(values[1..], v);
    }
  }

  // ---- On the stack ----

  /** The script that signatures are checked against: the executed script without the signatures themselves. */
  function DeleteSigs(script: Bytes, sigs: seq<Bytes>): Bytes
    decreases sigs
  {
    if sigs == [] then script else DeleteSigs(Deleted(script, Push(sigs[0])), sigs[1..])
  }

  lemma {:induction false} DeleteAbsent(script: Bytes, sigs: seq<Bytes>)
    requires forall s :: s in sigs ==> Push(s) !in Instructions(script)
    ensures DeleteSigs(script, sigs) == script
    decreases sigs
  {
    hide Deleted, Instructions;
    if sigs != [] {
      DeletedReads(script, Push(sigs[0]));
      DeleteAbsent(script, sigs[1..]);
    }
  }

  predicate IsPushOf(b: Bytes, sigs: seq<Bytes>) {
    exists i :: 0 <= i < |sigs| && b == Push(sigs[i])
  }

  /** The instructions that are no push of one of the signatures. */
  function Unsigned(parts: seq<Bytes>, sigs: seq<Bytes>): seq<Bytes> {
    if parts == [] then []
    else (if IsPushOf(parts[0], sigs) then [] else [parts[0]]) + Unsigned(parts[1..], sigs)
  }

  /** Deleting signatures one after the other leaves exactly the instructions that push none of them. */
  lemma {:induction false} DeleteSigsReads(script: Bytes, sigs: seq<Bytes>)
    ensures Instructions(DeleteSigs(script, sigs)) == Unsigned(Instructions(script), sigs)
    ensures Tail(DeleteSigs(script, sigs)) == Tail(script)
    decreases sigs
  {
    hide Deleted, Instructions, Tail, Push;
    if sigs == [] {
      UnsignedNone(Instructions(script), sigs);
    } else {
      DeletedReads(script, Push(sigs[0]));
      DeleteSigsReads(Deleted(script, Push(sigs[0])), sigs[1..]);
      UnsignedStep(Instructions(script), sigs);
    }
  }

  lemma {:induction false} UnsignedNone(parts: seq<Bytes>, sigs: seq<Bytes>)
    requires sigs == []
    ensures Unsigned(parts, sigs) == parts
  {
    if parts != [] {
      UnsignedNone(parts[1..], sigs);
      assert parts == [parts[0]] + parts[1..];
    }
  }

  lemma PushOfFirst(b: Bytes, sigs: seq<Bytes>)
    requires sigs != []
    ensures IsPushOf(b, sigs) <==> b == Push(sigs[0]) || IsPushOf(b, sigs[1..])
  {
    hide Push;
    if IsPushOf(b, sigs) {
      var i :| 0 <= i < |sigs| && b == Push(sigs[i]);
      if i > 0 { assert b == Push(sigs[1..][i - 1]); }
    }
    if IsPushOf(b, sigs[1..]) {
      var i :| 0 <= i < |sigs[1..]| && b == Push(sigs[1..][i]);
      assert b == Push(sigs[i + 1]);
    }
  }

  lemma {:induction false} UnsignedStep(parts: seq<Bytes>, sigs: seq<Bytes>)
    requires sigs != []
    ensures Unsigned(Without(parts, Push(sigs[0])), sigs[1..]) == Unsigned(parts, sigs)
    decreases |parts|
  {
    hide Push, IsPushOf;
    if parts != [] {
      PushOfFirst(parts[0], sigs);
      UnsignedStep(parts[1..], sigs);
      var rest := Without(parts[1..], Push(sigs[0]));
      assert ([parts[0]] + rest)[1..] == rest && [] + rest == rest;
    }
  }

  /** The order in which they are listed makes no difference. */
  lemma {:induction false} UnsignedSame(parts: seq<Bytes>, sigs: seq<Bytes>, others: seq<Bytes>)
    requires forall s :: s in sigs <==> s in others
    ensures Unsigned(parts, sigs) == Unsigned(parts, others)
  {
    hide Push;
    if parts != [] {
      UnsignedSame(parts[1..], sigs, others);
      SamePushes(parts[0], sigs, others);
      SamePushes(parts[0], others, sigs);
    }
  }

  lemma SamePushes(b: Bytes, sigs: seq<Bytes>, others: seq<Bytes>)
    requires forall s :: s in sigs ==> s in others
    ensures IsPushOf(b, sigs) ==> IsPushOf(b, others)
  {
    hide Push;
    if IsPushOf(b, sigs) {
      var i :| 0 <= i < |sigs| && b == Push(sigs[i]);
      assert sigs[i] in others;
      var j :| 0 <= j < |others| && others[j] == sigs[i];
    }
  }

  /** The stack on which OP_CHECKMULTISIG runs: the values of the signature script, then m, the keys, and n. */
  function MultisigStack(used: seq<Bytes>, m: Bytes, keys: seq<Bytes>, n: Bytes): seq<Bytes> {
    [[]] + used + [m] + keys + [n]
  }

  lemma AssignableFits(ok: (Bytes, Bytes) -> bool, sigs: seq<Bytes>, keys: seq<Bytes>)
    requires Assignable(ok, sigs, keys)
    ensures |sigs| <= |keys|
  {
    var at :| Assigns(ok, sigs, keys, at);
    if sigs != [] { AssignsFits(ok, sigs, keys, at, 0); }
  }

  /** The order of the lists does not matter, as long as it is the same for both. */
  lemma AssignableReversed(ok: (Bytes, Bytes) -> bool, sigs: seq<Bytes>, keys: seq<Bytes>)
    ensures Assignable(ok, Reversed(sigs), Reversed(keys)) <==> Assignable(ok, sigs, keys)
  {
    hide Reversed, Assigns;
    if Assignable(ok, sigs, keys) {
      var at :| Assigns(ok, sigs, keys, at);
      AssignableBackwards(ok, sigs, keys, at);
    }
    if Assignable(ok, Reversed(sigs), Reversed(keys)) {
      var at :| Assigns(ok, Reversed(sigs), Reversed(keys), at);
      AssignableBackwards(ok, Reversed(sigs), Reversed(keys), at);
      ReversedTwice(sigs);
      ReversedTwice(keys);
    }
  }

  /** Signatures can be assigned to the keys in order exactly when they can after both are read from the top of the
      stack and the signatures are dropped from the script that was signed, provided that does not contain them. */
  lemma AssignableOnStack(check: (Bytes, Bytes, Bytes) -> bool, script: Bytes, used: seq<Bytes>, m: Bytes, keys: seq<Bytes>, n: Bytes)
    requires |used| <= |keys| && forall s :: s in used ==> Push(s) !in Instructions(script)
    ensures var stack := MultisigStack(used, m, keys, n);
      var sigsOnStack := FromTop(stack, |keys| + 3, |used|);
      var code := DeleteSigs(script, sigsOnStack);
      Assignable((sig, key) => check(sig, key, code), sigsOnStack, FromTop(stack, 2, |keys|))
      <==> Assignable((sig, key) => check(sig, key, script), used, keys)
  {
    hide Instructions, DeleteSigs, Assignable;
    var ok := (sig, key) => check(sig, key, script);
    var stack := MultisigStack(used, m, keys, n);
    var sigsOnStack := FromTop(stack, |keys| + 3, |used|);
    assert sigsOnStack == Reversed(used);
    assert FromTop(stack, 2, |keys|) == Reversed(keys);
    AssignableReversed(ok, used, keys);
    DeleteAbsent(script, sigsOnStack);
    var code := DeleteSigs(script, sigsOnStack);
    AssignableSame((sig, key) => check(sig, key, code), ok, sigsOnStack, FromTop(stack, 2, |keys|));
  }

  lemma AssignableSame(a: (Bytes, Bytes) -> bool, b: (Bytes, Bytes) -> bool, sigs: seq<Bytes>, keys: seq<Bytes>)
    requires forall s, k :: a(s, k) == b(s, k)
    ensures Assignable(a, sigs, keys) <==> Assignable(b, sigs, keys)
  {
    if Assignable(a, sigs, keys) {
      var at :| Assigns(a, sigs, keys, at);
      assert Assigns(b, sigs, keys, at);
    }
    if Assignable(b, sigs, keys) {
      var at :| Assigns(b, sigs, keys, at);
      assert Assigns(a, sigs, keys, at);
    }
  }
}
