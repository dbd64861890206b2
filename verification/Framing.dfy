/** The byte stream behind the client artifact digest (`scripts/client-build-environment.ts`). */
module Framing {
  import opened Collections
  import opened Wrappers
  import opened Decimals

  const COLON: byte := 58

  datatype Artifact = Artifact(path: Bytes, content: Bytes)

  /** A field: its length in decimal, a colon, its bytes. */
  function Field(s: Bytes): Bytes {
    Decimal(|s|) + [COLON] + s
  }

  function Record(a: Artifact): Bytes {
    Field(a.path) + Field(a.content)
  }

  function Stream(artifacts: seq<Artifact>): Bytes {
    if artifacts == [] then [] else Record(artifacts[0]) + Stream(artifacts[1..])
  }

  // ---------- reading it back ----------

  /** The first field of a stream and what follows it. */
  function ReadField(s: Bytes): (r: Option<(Bytes, Bytes)>)
    ensures r.Some? ==> |r.value.1| < |s|
  {
    var k := LeadingDigits(s);
    if k == 0 || k >= |s| || s[k] != COLON then None
    else
      var size := Value(s[..k]);
      if k + 1 + size > |s| then None else Some((s[k + 1..k + 1 + size], s[k + 1 + size..]))
  }

  function Decode(s: Bytes): Option<seq<Artifact>>
    decreases |s|
  {
    if s == [] then Some([])
    else
      var path := ReadField(s);
      if path.None? then None
      else
        var content := ReadField(path.value.1);
        if content.None? then None
        else
          var rest := Decode(content.value.1);
          if rest.None? then None else Some([Artifact(path.value.0, content.value.0)] + rest.value)
  }

  lemma ReadFieldOf(field: Bytes, rest: Bytes)
    ensures ReadField(Field(field) + rest) == Some((field, rest))
  {
    var digits := Decimal(|field|);
    var s := Field(field) + rest;
    assert s == digits + ([COLON] + field + rest);
    LeadingDigitsOf(digits, [COLON] + field + rest);
    ValueOfDecimal(|field|);
    assert s[..|digits|] == digits;
    assert s[|digits| + 1..|digits| + 1 + |field|] == field;
    assert s[|digits| + 1 + |field|..] == rest;
  }

  /** Decoding a stream gives back every path and every content, in order. */
  lemma {:induction false} DecodeInvertsStream(artifacts: seq<Artifact>)
    ensures Decode(Stream(artifacts)) == Some(artifacts)
  {
    if artifacts != [] {
      var a, rest := artifacts[0], Stream(artifacts[1..]);
      ReadFieldOf(a.path, Field(a.content) + rest);
      ReadFieldOf(a.content, rest);
      Associative(Field(a.path), Field(a.content), rest);
      DecodeInvertsStream(artifacts[1..]);
      assert artifacts == [a] + artifacts[1..];
    }
  }

  /** Different artifact lists never produce the same stream, wherever one path or content ends. */
  lemma StreamIsInjective(artifacts: seq<Artifact>, others: seq<Artifact>)
    ensures Stream(artifacts) == Stream(others) <==> artifacts == others
  {
    DecodeInvertsStream(artifacts);
    DecodeInvertsStream(others);
  }

  // ---------- the digest ----------

  lemma FedField(fed: Bytes, s: Bytes)
    ensures fed + Decimal(|s|) + [COLON] + s == fed + Field(s)
  {
    Associative(fed, Decimal(|s|), [COLON]);
    Associative(fed, Decimal(|s|) + [COLON], s);
  }

  lemma {:induction false} StreamAppend(artifacts: seq<Artifact>, a: Artifact)
    ensures Stream(artifacts + [a]) == Stream(artifacts) + Record(a)
  {
    if artifacts == [] {
      assert artifacts + [a] == [a] && Stream([a][1..]) == [];
    } else {
      StreamAppend(artifacts[1..], a);
      assert (artifacts + [a])[1..] == artifacts[1..] + [a];
      Associative(Record(artifacts[0]), Stream(artifacts[1..]), Record(a));
    }
  }

  datatype Digest<+H> = Digest(fileCount: nat, hash: H)

  datatype Failure = NoArtifacts

  /** The digest of the artifacts found by the scan: a count and the hash of everything fed to it. */
  method ClientArtifactDigest<H>(artifacts: seq<Artifact>, hash: Bytes -> H) returns (r: Result<Digest<H>, Failure>)
    ensures r == if artifacts == [] then Err(NoArtifacts) else Ok(Digest(|artifacts|, hash(Stream(artifacts))))
  {
    if |artifacts| == 0 { return Err(NoArtifacts); }
    var fed: Bytes := [];
    for k := 0 to |artifacts|
      invariant fed == Stream(artifacts[..k])
    {
      var a := artifacts[k];
      StreamAppend(artifacts[..k], a);
      assert artifacts[..k + 1] == artifacts[..k] + [a];
      FedField(fed, a.path);
      fed := fed + Decimal(|a.path|) + [COLON];
      fed := fed + a.path;
      FedField(fed, a.content);
      fed := fed + Decimal(|a.content|) + [COLON];
      fed := fed + a.content;
      Associative(Stream(artifacts[..k]), Field(a.path), Field(a.content));
    }
    assert artifacts[..|artifacts|] == artifacts;
    return Ok(Digest(|artifacts|, hash(fed)));
  }

  /** The hash tells apart any two different streams among the ones compared. */
  ghost predicate NoCollision<H>(hash: Bytes -> H, s: Bytes, t: Bytes) {
    hash(s) == hash(t) ==> s == t
  }

  /**
   * The check of a build record against the artifacts on disk accepts exactly unchanged artifacts, up to
   * collisions of the hash.
   */
  method RecordMatches<H(==)>(recorded: Digest<H>, artifacts: seq<Artifact>, hash: Bytes -> H,
    ghost built: seq<Artifact>)
    returns (r: Result<bool, Failure>)
    requires recorded == Digest(|built|, hash(Stream(built))) && built != []
    requires NoCollision(hash, Stream(built), Stream(artifacts))
    ensures r.Err? <==> artifacts == []
    ensures r.Ok? ==> (r.value <==> artifacts == built)
  {
    var current := ClientArtifactDigest(artifacts, hash);
    if current.Err? { return Err(current.error); }
    StreamIsInjective(artifacts, built);
    return Ok(current.value.fileCount == recorded.fileCount && current.value.hash == recorded.hash);
  }
}
