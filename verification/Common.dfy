/** Values that may be missing, and results that may be errors. */
module Wrappers {
  datatype Option<T> = None | Some(value: T)

  datatype Result<T, E> = Ok(value: T) | Err(error: E)
}

/** Bytes and the ASCII helpers of the glob code. */
module Bytes {
  type Byte = b: int | 0 <= b < 256

  predicate IsUpper(b: Byte) { 'A' as int <= b <= 'Z' as int }
  predicate IsLower(b: Byte) { 'a' as int <= b <= 'z' as int }
  predicate IsAlpha(b: Byte) { IsUpper(b) || IsLower(b) }
  predicate IsDigit(b: Byte) { '0' as int <= b <= '9' as int }
  predicate IsGraphic(b: Byte) { 0x21 <= b <= 0x7e }

  function ToLower(b: Byte): Byte { if IsUpper(b) then b + 32 else b }
  function ToUpper(b: Byte): Byte { if IsLower(b) then b - 32 else b }

  /** The bytes of an ASCII literal. */
  function Ascii(s: string): seq<int> { seq(|s|, i requires 0 <= i < |s| => s[i] as int) }
}

/** Parts of sequences. */
module Sequences {
  /** `t` stands in `s` at `k`. */
  predicate Has<T(==)>(s: seq<T>, k: nat, t: seq<T>) {
    k + |t| <= |s| && forall x :: 0 <= x < |t| ==> t[x] == s[k + x]
  }

  lemma HasJoin<T>(s: seq<T>, k: nat, a: seq<T>, b: seq<T>)
    ensures Has(s, k, a + b) <==> Has(s, k, a) && Has(s, k + |a|, b)
  {
    if Has(s, k, a + b) {
      assert forall x :: 0 <= x < |a| ==> a[x] == (a + b)[x];
      assert forall x :: 0 <= x < |b| ==> b[x] == (a + b)[|a| + x];
    }
  }

  lemma HasOne<T>(s: seq<T>, k: nat, c: T)
    ensures Has(s, k, [c]) <==> k < |s| && s[k] == c
  {
    assert Has(s, k, [c]) ==> [c][0] == s[k];
  }

  lemma Regroup<T>(a: seq<T>, b: seq<T>, c: seq<T>)
    ensures a + (b + c) == (a + b) + c
  {
  }
}
