/** The aggregate digest of archive_ecommerce_live_evidence.py: one line "path NUL sha256" per artifact,
    concatenated and hashed. The sibling archive scripts use the same code. */
module EvidenceManifest {
  import opened PyText
  import opened Utf8
  import opened AnchorChain

  datatype Artifact = Artifact(path: string, sha256: string)

  const NUL: char := 0 as char

  /** What file systems and sha256_file guarantee of an artifact. */
  predicate ArtifactOk(a: Artifact) { NUL !in a.path && IsDigest(a.sha256) }

  function Line(a: Artifact): string { a.path + ([NUL] + (a.sha256 + "\n")) }

  /** "".join(...) over the artifact list. */
  function Manifest(artifacts: seq<Artifact>): string {
    if artifacts == [] then "" else Line(artifacts[0]) + Manifest(artifacts[1..])
  }

  function AggregateSha(sha: Sha, artifacts: seq<Artifact>): string { sha(Encode(Manifest(artifacts))) }

  /** Each further artifact adds its path, a NUL, its digest and a line break. */
  lemma {:induction false} ManifestGrows(artifacts: seq<Artifact>, a: Artifact)
    ensures Manifest([]) == ""
    ensures Manifest(artifacts + [a]) == Manifest(artifacts) + a.path + [0 as char] + a.sha256 + "\n"
  {
    if artifacts != [] {
      ManifestGrows(artifacts[1..], a);
      assert (artifacts + [a])[1..] == artifacts[1..] + [a];
    }
  }

  // ----- reading a manifest back -----

  /** The place of the first NUL; the length when there is none. */
  function FirstNul(s: string): (k: nat)
    ensures k <= |s| && NUL !in s[..k] && (k < |s| ==> s[k] == NUL)
  {
    if s == "" || s[0] == NUL then 0
    else
      assert s[..1 + FirstNul(s[1..])] == [s[0]] + s[1..][..FirstNul(s[1..])];
      1 + FirstNul(s[1..])
  }

  /** Takes the manifest apart: up to a NUL, 64 characters, a line break. */
  function ReadManifest(s: string): Option<seq<Artifact>>
    decreases |s|
  {
    if s == "" then Some([])
    else
      var k := FirstNul(s);
      if k + 66 > |s| || s[k + 65] != '\n' then None
      else match ReadManifest(s[k + 66..])
        case None => None
        case Some(rest) => Some([Artifact(s[..k], s[k + 1..k + 65])] + rest)
  }

  lemma FirstNulOfLine(path: string, rest: string)
    requires NUL !in path
    ensures FirstNul(path + ([NUL] + rest)) == |path|
  {
    var s := path + ([NUL] + rest);
    var k := FirstNul(s);
    assert s[|path|] == NUL;
    assert forall i :: 0 <= i < |path| ==> s[i] == path[i] && path[i] in path;
    assert forall i :: 0 <= i < k ==> s[..k][i] == s[i] && s[i] in s[..k];
  }

  lemma ReadLine(a: Artifact, rest: string)
    requires ArtifactOk(a)
    ensures ReadManifest(Line(a) + rest) ==
            match ReadManifest(rest) case None => None case Some(more) => Some([a] + more)
  {
    var s := Line(a) + rest;
    assert s == a.path + ([NUL] + (a.sha256 + "\n" + rest));
    FirstNulOfLine(a.path, a.sha256 + "\n" + rest);
    var k := |a.path|;
    assert s[..k] == a.path && s[k + 1..k + 65] == a.sha256 && s[k + 65] == '\n' && s[k + 66..] == rest;
  }

  /** Manifests of any length can be read back, whatever else the paths contain. */
  lemma {:induction false} ManifestRoundTrip(artifacts: seq<Artifact>)
    requires forall i :: 0 <= i < |artifacts| ==> ArtifactOk(artifacts[i])
    ensures ReadManifest(Manifest(artifacts)) == Some(artifacts)
  {
    hide Line, ArtifactOk;
    if artifacts != [] {
      ManifestRoundTrip(artifacts[1..]);
      ReadLine(artifacts[0], Manifest(artifacts[1..]));
      assert [artifacts[0]] + artifacts[1..] == artifacts;
    }
  }

  /** Equal aggregate digests mean equal artifact lists, or the two manifests are a digest collision. */
  lemma AggregateIdentifiesArtifacts(sha: Sha, a: seq<Artifact>, b: seq<Artifact>)
    requires forall i :: 0 <= i < |a| ==> ArtifactOk(a[i])
    requires forall i :: 0 <= i < |b| ==> ArtifactOk(b[i])
    requires AggregateSha(sha, a) == AggregateSha(sha, b)
    ensures var x, y := Encode(Manifest(a)), Encode(Manifest(b));
            a == b || (x != y && sha(x) == sha(y))
  {
    hide Manifest, ReadManifest, ArtifactOk, Encode;
    ManifestRoundTrip(a);
    ManifestRoundTrip(b);
    if Encode(Manifest(a)) == Encode(Manifest(b)) {
      EncodeInjective(Manifest(a), Manifest(b));
    }
  }
}
