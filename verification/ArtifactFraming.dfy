/** The length-prefixed byte stream that client artifacts are hashed as. */
module ArtifactFraming {
  import opened Wrappers

  type Byte = b: int | 0 <= b < 256

  type Bytes = seq<Byte>

  /** A file's path and content, both as bytes. */
  datatype Artifact = Artifact(path: Bytes, content: Bytes)

  const COLON: Byte := 58
  const ZERO: Byte := 48

  predicate IsDigit(b: Byte) {
    ZERO <= b < ZERO + 10
  }

  /** The decimal digits of a length, most significant first. */
  function Decimal(n: nat): (digits: Bytes)
    ensures digits != [] && forall d :: d in digits ==> IsDigit(d)
  {
    if n < 10 then [ZERO + n] else Decimal(n / 10) + [ZERO + n % 10]
  }

  function Prefixed(b: Bytes): Bytes {
    Decimal(|b|) + [COLON] + b
  }

  function Framed(a: Artifact): Bytes {
    Prefixed(a.path) + Prefixed(a.content)
  }

  /** What the digest is fed: each path and each content behind its length and a colon. */
  function Stream(artifacts: seq<Artifact>): Bytes {
    if artifacts == [] then []
    else Stream(artifacts[..|artifacts| - 1]) + Framed(artifacts[|artifacts| - 1])
  }

  /** The digest's updates, one artifact after another. */
  method FeedDigest(artifacts: seq<Artifact>) returns (fed: Bytes)
    ensures fed == Stream(artifacts)
  {
    fed := [];
    for n := 0 to |artifacts|
      invariant fed == Stream(artifacts[..n])
    {
      var artifact := artifacts[n];
      assert artifacts[..n + 1][..n] == artifacts[..n];
      assert fed + Framed(artifact) == fed + Prefixed(artifact.path) + Prefixed(artifact.content);
      fed := fed + Prefixed(artifact.path);
      fed := fed + Prefixed(artifact.content);
    }
    assert artifacts[..|artifacts|] == artifacts;
  }

  // ---------------------------------------------------------------- reading the stream back

  /** The number the digits denote. */
  function Value(digits: Bytes): nat
    requires forall d :: d in digits ==> IsDigit(d)
  {
    if digits == [] then 0
    else
      var last := digits[|digits| - 1];
      assert IsDigit(last);
      10 * Value(digits[..|digits| - 1]) + (last - ZERO)
  }

  /** How many digits the stream starts with. */
  function DigitCount(s: Bytes): (n: nat)
    ensures n <= |s| && forall i :: 0 <= i < n ==> IsDigit(s[i])
  {
    if s == [] || !IsDigit(s[0]) then 0 else 1 + DigitCount(s[1..])
  }

  /** One prefixed block off the front: its bytes and what follows. */
  function TakeBlock(s: Bytes): (r: Option<(Bytes, Bytes)>)
    ensures r.Some? ==> |r.value.1| < |s|
  {
    var n := DigitCount(s);
    if n == 0 || n == |s| || s[n] != COLON then None
    else
      var size, rest := Value(s[..n]), s[n + 1..];
      if size > |rest| then None else Some((rest[..size], rest[size..]))
  }

  function Unframe(s: Bytes): Option<seq<Artifact>>
    decreases |s|
  {
    if s == [] then Some([])
    else
      var path := TakeBlock(s);
      if path.None? then None
      else
        var content := TakeBlock(path.value.1);
        if content.None? then None
        else
          var others := Unframe(content.value.1);
          if others.None? then None
          else Some([Artifact(path.value.0, content.value.0)] + others.value)
  }

  lemma {:induction false} DecimalReadsBack(n: nat)
    ensures Value(Decimal(n)) == n
  {
    if n < 10 {
      assert [ZERO + n][..0] == [];
    } else {
      DecimalReadsBack(n / 10);
      assert Decimal(n)[..|Decimal(n)| - 1] == Decimal(n / 10);
    }
  }

  lemma {:induction false} DigitsEndAtColon(digits: Bytes, rest: Bytes)
    requires forall d :: d in digits ==> IsDigit(d)
    ensures DigitCount(digits + [COLON] + rest) == |digits|
  {
    var s := digits + [COLON] + rest;
    if digits == [] {
    } else {
      assert s[0] == digits[0] && digits[0] in digits;
      assert s[1..] == digits[1..] + [COLON] + rest;
      DigitsEndAtColon(digits[1..], rest);
    }
  }

  lemma BlockReadsBack(b: Bytes, rest: Bytes)
    ensures TakeBlock(Prefixed(b) + rest) == Some((b, rest))
  {
    var digits := Decimal(|b|);
    var s := Prefixed(b) + rest;
    assert s == digits + [COLON] + (b + rest);
    DigitsEndAtColon(digits, b + rest);
    DecimalReadsBack(|b|);
    assert s[..|digits|] == digits && s[|digits|] == COLON && s[|digits| + 1..] == b + rest;
    assert (b + rest)[..|b|] == b && (b + rest)[|b|..] == rest;
  }

  lemma Regroup(a: Bytes, b: Bytes, c: Bytes)
    ensures a + b + c == a + (b + c)
  {
  }

  lemma {:induction false} StreamFront(artifacts: seq<Artifact>)
    requires artifacts != []
    ensures Stream(artifacts) == Framed(artifacts[0]) + Stream(artifacts[1..])
  {
    var front, last := artifacts[..|artifacts| - 1], artifacts[|artifacts| - 1];
    if front == [] {
      assert Stream(artifacts[1..]) == [] && Stream(front) == [];
    } else {
      StreamFront(front);
      assert front[1..] == artifacts[1..][..|artifacts[1..]| - 1];
      Regroup(Framed(front[0]), Stream(front[1..]), Framed(last));
    }
  }

  lemma ArtifactReadsBack(a: Artifact, others: Bytes)
    requires Unframe(others).Some?
    ensures Unframe(Framed(a) + others) == Some([a] + Unframe(others).value)
  {
    var s := Framed(a) + others;
    Regroup(Prefixed(a.path), Prefixed(a.content), others);
    BlockReadsBack(a.path, Prefixed(a.content) + others);
    BlockReadsBack(a.content, others);
    assert s != [];
  }

  /** The stream decodes to exactly the artifacts it was made from. */
  lemma {:induction false} StreamReadsBack(artifacts: seq<Artifact>)
    ensures Unframe(Stream(artifacts)) == Some(artifacts)
    decreases |artifacts|
  {
    if artifacts == [] {
    } else {
      StreamFront(artifacts);
      StreamReadsBack(artifacts[1..]);
      ArtifactReadsBack(artifacts[0], Stream(artifacts[1..]));
      assert [artifacts[0]] + artifacts[1..] == artifacts;
    }
  }

  /** Two artifact lists feed the digest the same bytes only if they are the same list. */
  lemma StreamIsInjective(a: seq<Artifact>, b: seq<Artifact>)
    ensures Stream(a) == Stream(b) <==> a == b
  {
    StreamReadsBack(a);
    StreamReadsBack(b);
  }

  /** A path `a` with content `bc` is fed as the characters `1:a2:bc`. */
  lemma FramedAsText()
    ensures Stream([Artifact([97], [98, 99])]) == [49, 58, 97, 50, 58, 98, 99]
  {
    var a := Artifact([97], [98, 99]);
    assert [a][..0] == [] && Stream([a]) == Framed(a);
    assert Decimal(1) == [49] && Decimal(2) == [50];
  }

  /** The digits of a length are its decimal notation: no leading zero, and the value read back. */
  lemma {:induction false} DecimalIsCanonical(n: nat)
    ensures n > 0 ==> Decimal(n)[0] != ZERO
    ensures n == 0 ==> Decimal(n) == [48]
  {
    if n < 10 {
    } else {
      DecimalIsCanonical(n / 10);
    }
  }
}
