/** `gix-imara-diff/src/intern.rs`: numbering distinct tokens with the help of a hash table of token numbers. */
module Interner {
  const MAX_TOKENS: nat := 0x1_0000_0000

  /** An entry of the hash table: a token number stored under a hash. */
  datatype Entry = Entry(hash: int, token: nat)

  /** The entries the table should hold for the first `n` tokens. */
  ghost predicate Holds<T>(table: multiset<Entry>, tokens: seq<T>, hash: T -> int, n: nat)
    requires n <= |tokens|
  {
    forall e: Entry :: table[e] == if e.token < n && e.hash == hash(tokens[e.token]) then 1 else 0
  }

  ghost predicate Distinct<T>(tokens: seq<T>) {
    forall i, j :: 0 <= i < j < |tokens| ==> tokens[i] != tokens[j]
  }

  class Interner<T(==)> {
    var tokens: seq<T>
    var table: multiset<Entry>
    const hash: T -> int

    ghost predicate Valid()
      reads this
    {
      Distinct(tokens) && Holds(table, tokens, hash, |tokens|)
    }

    constructor (hash: T -> int)
      ensures Valid() && tokens == [] && this.hash == hash
    {
      this.hash := hash;
      tokens, table := [], multiset{};
    }

    method Clear()
      modifies this
      ensures Valid() && tokens == []
    {
      table := multiset{};
      tokens := [];
    }

    /** The number of a token: the old one if it is known, the next one otherwise. */
    method Intern(token: T) returns (r: nat)
      requires Valid() && |tokens| < MAX_TOKENS
      modifies this
      ensures Valid() && r < |tokens| && tokens[r] == token
      ensures tokens == if token in old(tokens) then old(tokens) else old(tokens) + [token]
      ensures token in old(tokens) ==> table == old(table)
    {
      var h := hash(token);
      if e :| e in table && e.hash == h && tokens[e.token] == token {
        r := e.token;
      } else {
        assert token !in tokens by { NotFound(table, tokens, hash, token); }
        r := |tokens|;
        HoldsNext(table, tokens, hash, token);
        table := table + multiset{Entry(h, r)};
        tokens := tokens + [token];
      }
    }

    /** Forgets a token and all later ones; whether the table is rebuilt or trimmed makes no difference. */
    method EraseTokensAfter(first: nat)
      requires Valid() && first <= |tokens|
      modifies this
      ensures Valid() && tokens == old(tokens)[..first]
    {
      if first <= |tokens| - first {
        Rebuild(first);
      } else {
        Trim(first);
      }
      HoldsCut(table, tokens, hash, first);
      tokens := tokens[..first];
    }

    method Rebuild(first: nat)
      requires Valid() && first <= |tokens|
      modifies this`table
      ensures Holds(table, tokens, hash, first)
    {
      table := multiset{};
      for i := 0 to first
        invariant Holds(table, tokens, hash, i)
      {
        table := table + multiset{Entry(hash(tokens[i]), i)};
      }
    }

    method Trim(first: nat)
      requires Valid() && first <= |tokens|
      modifies this`table
      ensures Holds(table, tokens, hash, first)
    {
      for i := first to |tokens|
        invariant Trimmed(table, tokens, hash, first, i)
      {
        var h := hash(tokens[i]);
        assert table[Entry(h, i)] == 1;
        var e :| e in table && e.hash == h && e.token == i;
        table := table - multiset{e};
      }
    }
  }

  /** All entries but those of the tokens from `first` up to `i`. */
  ghost predicate Trimmed<T>(table: multiset<Entry>, tokens: seq<T>, hash: T -> int, first: nat, i: nat)
    requires first <= i <= |tokens|
  {
    forall e: Entry :: table[e] ==
      if e.token < |tokens| && !(first <= e.token < i) && e.hash == hash(tokens[e.token]) then 1 else 0
  }

  /** If no entry under its hash leads to a token, the token is not there. */
  lemma NotFound<T>(table: multiset<Entry>, tokens: seq<T>, hash: T -> int, token: T)
    requires Holds(table, tokens, hash, |tokens|)
    requires forall e :: e in table && e.hash == hash(token) ==> tokens[e.token] != token
    ensures token !in tokens
  {
    forall i | 0 <= i < |tokens| ensures tokens[i] != token {
      var e := Entry(hash(tokens[i]), i);
      assert table[e] == 1;
    }
  }

  lemma HoldsNext<T>(table: multiset<Entry>, tokens: seq<T>, hash: T -> int, token: T)
    requires Holds(table, tokens, hash, |tokens|)
    ensures Holds(table + multiset{Entry(hash(token), |tokens|)}, tokens + [token], hash, |tokens| + 1)
  {
    var more := tokens + [token];
    forall e: Entry
      ensures (table + multiset{Entry(hash(token), |tokens|)})[e] ==
              if e.token < |tokens| + 1 && e.hash == hash(more[e.token]) then 1 else 0
    {
      if e.token < |tokens| { assert more[e.token] == tokens[e.token]; }
    }
  }

  lemma HoldsCut<T>(table: multiset<Entry>, tokens: seq<T>, hash: T -> int, n: nat)
    requires n <= |tokens| && Holds(table, tokens, hash, n)
    ensures Holds(table, tokens[..n], hash, n)
  {
    assert forall i :: 0 <= i < n ==> tokens[..n][i] == tokens[i];
  }

  /** What a valid table holds is determined by the tokens. */
  lemma TableIsDetermined<T>(a: multiset<Entry>, b: multiset<Entry>, tokens: seq<T>, hash: T -> int)
    requires Holds(a, tokens, hash, |tokens|) && Holds(b, tokens, hash, |tokens|)
    ensures a == b
  {
    assert forall e: Entry :: a[e] == b[e];
  }

  /** The numbers of the values stand for them: equal numbers, equal values. */
  ghost predicate Numbers<T>(ids: seq<nat>, values: seq<T>, tokens: seq<T>) {
    |ids| == |values| && forall k :: 0 <= k < |ids| ==> ids[k] < |tokens| && tokens[ids[k]] == values[k]
  }

  lemma NumbersGrow<T>(ids: seq<nat>, values: seq<T>, tokens: seq<T>, more: seq<T>)
    requires Numbers(ids, values, tokens) && tokens <= more
    ensures Numbers(ids, values, more)
  {
  }

  /** Two values have the same number exactly if they are equal. */
  lemma NumbersAreEqual<T>(a: seq<nat>, b: seq<nat>, x: seq<T>, y: seq<T>, tokens: seq<T>, i: nat, j: nat)
    requires Distinct(tokens) && Numbers(a, x, tokens) && Numbers(b, y, tokens) && i < |a| && j < |b|
    ensures a[i] == b[j] <==> x[i] == y[j]
  {
    if a[i] < b[j] {
      assert tokens[a[i]] != tokens[b[j]];
    } else if b[j] < a[i] {
      assert tokens[b[j]] != tokens[a[i]];
    }
  }

  /** Interns a whole input, keeping what is already known. */
  method InternAll<T(==)>(interner: Interner<T>, values: seq<T>) returns (ids: seq<nat>)
    requires interner.Valid() && |interner.tokens| + |values| < MAX_TOKENS
    modifies interner
    ensures interner.Valid() && old(interner.tokens) <= interner.tokens
    ensures |interner.tokens| <= old(|interner.tokens|) + |values|
    ensures Numbers(ids, values, interner.tokens)
  {
    ids := [];
    for i := 0 to |values|
      invariant interner.Valid() && old(interner.tokens) <= interner.tokens
      invariant |interner.tokens| <= old(|interner.tokens|) + i
      invariant Numbers(ids, values[..i], interner.tokens)
    {
      ghost var before := interner.tokens;
      var id := interner.Intern(values[i]);
      NumbersGrow(ids, values[..i], before, interner.tokens);
      ids := ids + [id];
    }
    assert values[..|values|] == values;
  }

  /** Interns both sides of a diff. */
  method InternInput<T(==)>(hash: T -> int, before: seq<T>, after: seq<T>) returns (a: seq<nat>, b: seq<nat>)
    requires |before| + |after| < MAX_TOKENS
    ensures |a| == |before| && |b| == |after|
    ensures forall i, j :: 0 <= i < |a| && 0 <= j < |b| ==> (a[i] == b[j] <==> before[i] == after[j])
    ensures forall i, j :: 0 <= i < |a| && 0 <= j < |a| ==> (a[i] == a[j] <==> before[i] == before[j])
    ensures forall i, j :: 0 <= i < |b| && 0 <= j < |b| ==> (b[i] == b[j] <==> after[i] == after[j])
  {
    var interner := new Interner<T>(hash);
    a := InternAll(interner, before);
    ghost var known := interner.tokens;
    b := InternAll(interner, after);
    NumbersGrow(a, before, known, interner.tokens);
    forall i, j | 0 <= i < |a| && 0 <= j < |b| ensures a[i] == b[j] <==> before[i] == after[j] {
      NumbersAreEqual(a, b, before, after, interner.tokens, i, j);
    }
    forall i, j | 0 <= i < |a| && 0 <= j < |a| ensures a[i] == a[j] <==> before[i] == before[j] {
      NumbersAreEqual(a, a, before, before, interner.tokens, i, j);
    }
    forall i, j | 0 <= i < |b| && 0 <= j < |b| ensures b[i] == b[j] <==> after[i] == after[j] {
      NumbersAreEqual(b, b, after, after, interner.tokens, i, j);
    }
  }
}
