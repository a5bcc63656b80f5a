/**
  The fingerprint of a pinned file set (`configpin.py`): the byte stream fed to the hash, and why
  equal fingerprints mean equal file sets.
*/
module Digest {
  import opened Common

  newtype byte = x: int | 0 <= x < 256

  type Bytes = seq<byte>

  /** The two pinned files; an absent file is different from an empty one. */
  datatype FileSet = FileSet(shared: Option<Bytes>, local: Option<Bytes>)

  function Ascii(text: string): Bytes {
    seq(|text|, i requires 0 <= i < |text| => if text[i] as int < 128 then (text[i] as int) as byte else 63)
  }

  const SHARED_NAME: Bytes := Ascii("foldyard.toml")
  const LOCAL_NAME: Bytes := Ascii("foldyard.local.toml")
  const NUL: byte := 0
  const DASH: byte := 45
  const COLON: byte := 58

  function Decimal(n: nat): (digits: Bytes)
    ensures digits != [] && forall i :: 0 <= i < |digits| ==> 48 <= digits[i] <= 57
    ensures Number(digits) == n
  {
    if n < 10 then [(48 + n) as byte]
    else
      var digits := Decimal(n / 10) + [(48 + n % 10) as byte];
      assert digits[..|digits| - 1] == Decimal(n / 10);
      digits
  }

  /** The number a run of decimal digits spells. */
  function Number(digits: Bytes): int {
    if digits == [] then 0 else Number(digits[..|digits| - 1]) * 10 + (digits[|digits| - 1] as int - 48)
  }

  /** What one file adds to the stream: name, NUL, a dash or the length-prefixed contents, NUL. */
  function Part(name: Bytes, data: Option<Bytes>): Bytes {
    name + [NUL] + Contents(data) + [NUL]
  }

  function Contents(data: Option<Bytes>): Bytes {
    match data
    case None => [DASH]
    case Some(bytes) => Decimal(|bytes|) + [COLON] + bytes
  }

  function Encode(files: FileSet): Bytes {
    Part(SHARED_NAME, files.shared) + Part(LOCAL_NAME, files.local)
  }

  /** The fingerprint, under whatever hash is used. */
  function Fingerprint(hash: Bytes -> string, files: FileSet): string {
    hash(Encode(files))
  }

  lemma Reassociate(p: Bytes, q: Bytes, r: Bytes)
    ensures (p + q) + r == p + (q + r)
  {
  }

  function BeforeColon(bytes: Bytes): Bytes {
    if bytes == [] || bytes[0] == COLON then [] else [bytes[0]] + BeforeColon(bytes[1..])
  }

  lemma {:induction false} BeforeFirstColon(a: Bytes, x: Bytes)
    requires COLON !in a
    ensures BeforeColon(a + [COLON] + x) == a
    decreases a
  {
    var stream := a + [COLON] + x;
    if a != [] {
      assert stream[0] == a[0] && a[0] in a;
      assert stream[1..] == a[1..] + [COLON] + x;
      BeforeFirstColon(a[1..], x);
    }
  }

  lemma SplitAtColon(a: Bytes, x: Bytes, b: Bytes, y: Bytes)
    requires COLON !in a && COLON !in b
    requires a + [COLON] + x == b + [COLON] + y
    ensures a == b && x == y
  {
    BeforeFirstColon(a, x);
    BeforeFirstColon(b, y);
    assert x == (a + [COLON] + x)[|a| + 1..];
    assert y == (b + [COLON] + y)[|b| + 1..];
  }

  lemma SplitAt(a: Bytes, x: Bytes, b: Bytes, y: Bytes)
    requires |a| == |b| && a + x == b + y
    ensures a == b && x == y
  {
    assert a == (a + x)[..|a|] && b == (b + y)[..|b|];
    assert x == (a + x)[|a|..] && y == (b + y)[|b|..];
  }

  lemma PresentContentsInjective(a: Bytes, x: Bytes, b: Bytes, y: Bytes)
    requires Contents(Some(a)) + x == Contents(Some(b)) + y
    ensures a == b && x == y
  {
    var m, n := Decimal(|a|), Decimal(|b|);
    Reassociate(m + [COLON], a, x);
    Reassociate(n + [COLON], b, y);
    SplitAtColon(m, a + x, n, b + y);
    SplitAt(a, x, b, y);
  }

  lemma ContentsInjective(a: Option<Bytes>, x: Bytes, b: Option<Bytes>, y: Bytes)
    requires Contents(a) + x == Contents(b) + y
    ensures a == b && x == y
  {
    assert (Contents(a) + x)[0] == Contents(a)[0] && (Contents(b) + y)[0] == Contents(b)[0];
    assert Contents(a)[0] == DASH <==> a.None?;
    assert Contents(b)[0] == DASH <==> b.None?;
    if a.Some? {
      PresentContentsInjective(a.value, x, b.value, y);
    } else {
      SplitAt([DASH], x, [DASH], y);
    }
  }

  lemma PartStream(name: Bytes, data: Option<Bytes>, x: Bytes)
    ensures Part(name, data) + x == (name + [NUL]) + (Contents(data) + ([NUL] + x))
  {
    Reassociate(name + [NUL] + Contents(data), [NUL], x);
    Reassociate(name + [NUL], Contents(data), [NUL] + x);
  }

  lemma PartInjective(name: Bytes, a: Option<Bytes>, x: Bytes, b: Option<Bytes>, y: Bytes)
    requires Part(name, a) + x == Part(name, b) + y
    ensures a == b && x == y
  {
    PartStream(name, a, x);
    PartStream(name, b, y);
    SplitAt(name + [NUL], Contents(a) + ([NUL] + x), name + [NUL], Contents(b) + ([NUL] + y));
    ContentsInjective(a, [NUL] + x, b, [NUL] + y);
    SplitAt([NUL], x, [NUL], y);
  }

  /** Different file sets feed different streams to the hash. */
  lemma EncodeInjective(a: FileSet, b: FileSet)
    ensures Encode(a) == Encode(b) <==> a == b
  {
    if Encode(a) == Encode(b) {
      PartInjective(SHARED_NAME, a.shared, Part(LOCAL_NAME, a.local), b.shared, Part(LOCAL_NAME, b.local));
      assert Part(LOCAL_NAME, a.local) + [] == Part(LOCAL_NAME, b.local) + [];
      PartInjective(LOCAL_NAME, a.local, [], b.local, []);
    }
  }

  ghost predicate CollisionFree(hash: Bytes -> string) {
    forall x, y :: hash(x) == hash(y) ==> x == y
  }

  /** Under a collision-free hash, equal fingerprints mean equal file sets, absent files included. */
  lemma FingerprintIdentifies(hash: Bytes -> string, a: FileSet, b: FileSet)
    requires CollisionFree(hash)
    ensures Fingerprint(hash, a) == Fingerprint(hash, b) <==> a == b
  {
    EncodeInjective(a, b);
  }
}
