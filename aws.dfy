/**
 * The AWS side of the helper: validating the lease path of the secret
 * backend's AWS engine, turning the lease it returns into AWS credentials,
 * and minting an EKS token from a presigned STS GetCallerIdentity URL.
 *
 * The secret backend, the region table and the SigV4 presigner are outside
 * this model; they appear as function parameters, so every statement below
 * holds whatever they do.
 */
module Aws {
  import opened Errors
  import opened Base64Url
  import Decimal

  /* ---------- Splitting a path on '/' ---------- */

  /** The position of the first `c` in `s`. */
  function IndexOf(s: string, c: char): (i: nat)
    requires c in s
    ensures i < |s| && s[i] == c && c !in s[..i]
  {
    if s[0] == c then 0
    else
      var j := IndexOf(s[1..], c);
      assert s[..j + 1] == [s[0]] + s[1..][..j];
      j + 1
  }

  /**
   * `str::split` on one separator character: the pieces between separators,
   * including empty ones, so "" gives [""] and "a/" gives ["a", ""].
   */
  function Split(s: string, sep: char): (parts: seq<string>)
    ensures |parts| >= 1
    decreases |s|
  {
    if sep !in s then [s]
    else
      var i := IndexOf(s, sep);
      [s[..i]] + Split(s[i + 1..], sep)
  }

  /** No piece contains the separator. */
  lemma {:induction false} SplitPieces(s: string, sep: char)
    ensures forall k :: 0 <= k < |Split(s, sep)| ==> sep !in Split(s, sep)[k]
    decreases |s|
  {
    if sep in s {
      var i := IndexOf(s, sep);
      SplitPieces(s[i + 1..], sep);
      assert Split(s, sep)[1..] == Split(s[i + 1..], sep);
    }
  }

  /** The pieces glued back together with the separator between them. */
  function Join(parts: seq<string>, sep: char): string
    requires |parts| >= 1
    decreases |parts|
  {
    if |parts| == 1 then parts[0] else parts[0] + [sep] + Join(parts[1..], sep)
  }

  /** Splitting loses nothing: the pieces rejoin to the original string. */
  lemma {:induction false} JoinSplit(s: string, sep: char)
    ensures Join(Split(s, sep), sep) == s
    decreases |s|
  {
    if sep in s {
      var i := IndexOf(s, sep);
      JoinSplit(s[i + 1..], sep);
      var parts := Split(s, sep);
      assert parts[1..] == Split(s[i + 1..], sep);
      assert s == s[..i] + [sep] + s[i + 1..];
    }
  }

  lemma SplitNoSeparator(a: string, sep: char)
    requires sep !in a
    ensures Split(a, sep) == [a]
  {
  }

  lemma SplitAfterSeparator(a: string, t: string, sep: char)
    requires sep !in a
    ensures Split(a + [sep] + t, sep) == [a] + Split(t, sep)
  {
    var s := a + [sep] + t;
    assert s[|a|] == sep;
    var i := IndexOf(s, sep);
    assert s[..i] == a;
    assert s[i + 1..] == t;
  }

  lemma JoinThree(a: string, b: string, c: string, sep: char)
    ensures Join([a, b, c], sep) == a + [sep] + b + [sep] + c
  {
    assert [a, b, c][1..] == [b, c];
    assert [b, c][1..] == [c];
    assert Join([c], sep) == c;
    assert Join([b, c], sep) == b + [sep] + c;
    assert Join([a, b, c], sep) == a + [sep] + (b + [sep] + c);
  }

  /** Pieces free of the separator are exactly what splitting their join gives back. */
  lemma {:induction false} SplitJoin(parts: seq<string>, sep: char)
    requires |parts| >= 1
    requires forall k :: 0 <= k < |parts| ==> sep !in parts[k]
    ensures Split(Join(parts, sep), sep) == parts
    decreases |parts|
  {
    if |parts| == 1 {
      SplitNoSeparator(parts[0], sep);
    } else {
      SplitJoin(parts[1..], sep);
      SplitAfterSeparator(parts[0], Join(parts[1..], sep), sep);
      assert [parts[0]] + parts[1..] == parts;
    }
  }

  /* ---------- Lease path validation ---------- */

  /** The two pieces of a validated `<mount>/creds/<role>` path. */
  datatype LeasePath = LeasePath(mount: string, role: string)

  /**
   * The guard at the top of `read_aws_credentials`: exactly three pieces,
   * the middle one literally "creds"; mount and role are taken verbatim.
   */
  function ParseLeasePath(path: string): (r: Result<LeasePath>)
    ensures r.Err? ==> r.error == InvalidVaultPath
  {
    var parts := Split(path, '/');
    if |parts| != 3 then Err(InvalidVaultPath)
    else if parts[1] != "creds" then Err(InvalidVaultPath)
    else Ok(LeasePath(parts[0], parts[2]))
  }

  /**
   * A path is accepted with mount `m` and role `r` exactly when it is
   * `m + "/creds/" + r` and neither `m` nor `r` contains a '/'. Empty pieces
   * are not rejected.
   */
  lemma ParseLeasePathIff(path: string, m: string, r: string)
    ensures ParseLeasePath(path) == Ok(LeasePath(m, r)) <==>
      '/' !in m && '/' !in r && path == m + "/creds/" + r
  {
    if ParseLeasePath(path) == Ok(LeasePath(m, r)) {
      ParseLeasePathShape(path);
    }
    if '/' !in m && '/' !in r && path == m + "/creds/" + r {
      ParseLeasePathOf(m, r);
    }
  }

  lemma CredsInfix(a: string, c: string)
    ensures a + ['/'] + "creds" + ['/'] + c == a + "/creds/" + c
  {
  }

  lemma ParseLeasePathShape(path: string)
    requires ParseLeasePath(path).Ok?
    ensures var lp := ParseLeasePath(path).value;
      '/' !in lp.mount && '/' !in lp.role && path == lp.mount + "/creds/" + lp.role
  {
    var parts := Split(path, '/');
    assert |parts| == 3 && parts[1] == "creds";
    assert ParseLeasePath(path).value == LeasePath(parts[0], parts[2]);
    SplitPieces(path, '/');
    assert '/' !in parts[0] && '/' !in parts[2];
    JoinSplit(path, '/');
    assert parts == [parts[0], "creds", parts[2]];
    JoinThree(parts[0], "creds", parts[2], '/');
    CredsInfix(parts[0], parts[2]);
  }

  lemma ParseLeasePathOf(m: string, r: string)
    requires '/' !in m && '/' !in r
    ensures ParseLeasePath(m + "/creds/" + r) == Ok(LeasePath(m, r))
  {
    var want := [m, "creds", r];
    JoinThree(m, "creds", r, '/');
    assert m + ['/'] + "creds" + ['/'] + r == m + "/creds/" + r;
    SplitJoin(want, '/');
  }

  /** A string cut around the characters at `i` and `j`. */
  lemma CutAround(s: string, i: nat, j: nat)
    requires i < j < |s|
    ensures s == s[..i] + [s[i]] + s[i + 1..j] + [s[j]] + s[j + 1..]
  {
    assert s == s[..i] + s[i..];
    assert s[i..] == [s[i]] + s[i + 1..];
    assert s[i + 1..] == s[i + 1..j] + s[j..];
    assert s[j..] == [s[j]] + s[j + 1..];
  }

  // The literal examples below take their path through a `requires`: stating
  // the literal inside `ParseLeasePath(...)` makes the solver unfold `Split`
  // on it character by character, which costs far more than the slices used here.

  lemma ParseLeasePathAccepts(path: string)
    requires path == "aws/creds/deploy-role"
    ensures ParseLeasePath(path) == Ok(LeasePath("aws", "deploy-role"))
  {
    var m, w, r := path[..3], path[4..9], path[10..];
    assert m == "aws" && w == "creds" && r == "deploy-role";
    assert path[3] == '/' && path[9] == '/';
    CutAround(path, 3, 9);
    assert path == m + "/creds/" + r;
    ParseLeasePathOf(m, r);
  }

  /** Empty pieces are not rejected. */
  lemma ParseLeasePathAcceptsEmpty(path: string)
    requires path == "/creds/"
    ensures ParseLeasePath(path) == Ok(LeasePath("", ""))
  {
    ParseLeasePathOf("", "");
    assert path == "" + "/creds/" + "";
  }

  /** Two pieces are rejected. */
  lemma ParseLeasePathRejectsTwo(m: string, r: string)
    requires '/' !in m && '/' !in r
    ensures ParseLeasePath(m + "/" + r) == Err(InvalidVaultPath)
  {
    SplitNoSeparator(r, '/');
    SplitAfterSeparator(m, r, '/');
    assert Split(m + "/" + r, '/') == [m, r];
  }

  /** Three pieces whose middle is anything but "creds" are rejected. */
  lemma ParseLeasePathRejectsMiddle(m: string, w: string, r: string)
    requires '/' !in m && '/' !in w && '/' !in r && w != "creds"
    ensures ParseLeasePath(m + "/" + w + "/" + r) == Err(InvalidVaultPath)
  {
    SplitNoSeparator(r, '/');
    SplitAfterSeparator(w, r, '/');
    SplitAfterSeparator(m, w + "/" + r, '/');
    assert m + "/" + w + "/" + r == m + ['/'] + (w + ['/'] + r);
    assert Split(m + "/" + w + "/" + r, '/') == [m, w, r];
  }

  lemma ParseLeasePathRejectsTwoPieces(path: string)
    requires path == "aws/deploy-role"
    ensures ParseLeasePath(path) == Err(InvalidVaultPath)
  {
    var m, r := path[..3], path[4..];
    assert m == "aws" && r == "deploy-role";
    assert path == m + [path[3]] + r;
    ParseLeasePathRejectsTwo(m, r);
  }

  lemma ParseLeasePathRejectsOtherLiteral(path: string)
    requires path == "aws/token/deploy-role"
    ensures ParseLeasePath(path) == Err(InvalidVaultPath)
  {
    var m, w, r := path[..3], path[4..9], path[10..];
    assert m == "aws" && w == "token" && r == "deploy-role";
    assert w[0] != "creds"[0];
    assert path[3] == '/' && path[9] == '/';
    CutAround(path, 3, 9);
    assert path == m + "/" + w + "/" + r;
    ParseLeasePathRejectsMiddle(m, w, r);
  }

  /* ---------- Reading a lease ---------- */

  /** The optional parameters forwarded to the backend's "generate credentials" call. */
  datatype CredentialsRequest = CredentialsRequest(roleArn: Option<string>, ttl: Option<string>)

  /** The lease the backend returns: keys, an optional STS session token, and its duration in seconds. */
  datatype AwsLease = AwsLease(accessKey: string, secretKey: string, securityToken: Option<string>, leaseDuration: nat)

  /** Credentials handed to the presigner; `expiresAt` is in epoch seconds. */
  datatype AwsCredentials = AwsCredentials(key: string, secret: string, token: Option<string>, expiresAt: Option<int>)

  /** The backend's "generate AWS credentials" call, given mount, role and request. */
  type Backend = (string, string, CredentialsRequest) -> Result<AwsLease>

  /**
   * The credentials are the lease's, unchanged, and they expire `leaseDuration`
   * seconds after `now` exactly when the lease carries a session token;
   * long-lived keys (no session token) never expire.
   */
  predicate IssuedFrom(c: AwsCredentials, lease: AwsLease, now: int)
  {
    && c.key == lease.accessKey
    && c.secret == lease.secretKey
    && c.token == lease.securityToken
    && (c.expiresAt.Some? <==> lease.securityToken.Some?)
    && (c.expiresAt.Some? ==> c.expiresAt.value == now + lease.leaseDuration)
  }

  /** The credentials a lease yields when the clock reads `now`. */
  function CredentialsFromLease(lease: AwsLease, now: int): (c: AwsCredentials)
    ensures IssuedFrom(c, lease, now)
  {
    var expiry := if lease.securityToken.Some? then Some(now + lease.leaseDuration) else None;
    AwsCredentials(lease.accessKey, lease.secretKey, lease.securityToken, expiry)
  }

  /**
   * `read_aws_credentials`, with the clock read once as `now`. An invalid path
   * fails with `InvalidVaultPath` whatever the backend would answer; otherwise
   * the backend is asked for the path's mount and role, its error is passed on
   * unchanged, and its lease becomes credentials as `IssuedFrom` says.
   */
  function ReadAwsCredentials(path: string, request: CredentialsRequest, generate: Backend, now: int)
    : (r: Result<AwsCredentials>)
    ensures ParseLeasePath(path).Err? ==> r == Err(InvalidVaultPath)
    ensures ParseLeasePath(path).Ok? ==>
      var lp := ParseLeasePath(path).value;
      var g := generate(lp.mount, lp.role, request);
      && (g.Err? ==> r == Err(g.error))
      && (g.Ok? ==> r.Ok? && IssuedFrom(r.value, g.value, now))
  {
    match ParseLeasePath(path)
    case Err(e) => Err(e)
    case Ok(lp) =>
      match generate(lp.mount, lp.role, request)
      case Err(e) => Err(e)
      case Ok(lease) => Ok(CredentialsFromLease(lease, now))
  }

  /** For a path `m/creds/r` the backend is asked for exactly mount `m` and role `r`. */
  lemma ReadAwsCredentialsAsksFor(m: string, role: string, request: CredentialsRequest, generate: Backend, now: int)
    requires '/' !in m && '/' !in role
    ensures var r := ReadAwsCredentials(m + "/creds/" + role, request, generate, now);
      match generate(m, role, request)
      case Err(e) => r == Err(e)
      case Ok(lease) => r.Ok? && IssuedFrom(r.value, lease, now)
  {
    ParseLeasePathIff(m + "/creds/" + role, m, role);
  }

  lemma LeaseExpiryExamples(now: int)
    ensures CredentialsFromLease(AwsLease("AK", "SK", Some("tok"), 900), now).expiresAt == Some(now + 900)
    ensures CredentialsFromLease(AwsLease("AK", "SK", None, 900), now).expiresAt == None
  {
  }

  /* ---------- Minting the EKS token ---------- */

  /** A region recognised by the AWS SDK's region table. */
  datatype Region = Region(name: string)

  /** The region table: a partial map from names to regions, outside this model. */
  type RegionParser = string -> Option<Region>

  /** Everything the SigV4 presigner receives. */
  datatype PresignRequest = PresignRequest(
    credentials: AwsCredentials,
    region: Option<Region>,
    headers: map<string, string>,
    expiresIn: Option<nat>)

  /** The presigner: the bytes of the presigned GetCallerIdentity URL. */
  type Presigner = PresignRequest -> seq<byte>

  const ClusterIdHeader: string := "x-k8s-aws-id"
  const TokenPrefix: string := "k8s-aws-v1."
  const ExecCredentialKind: string := "ExecCredential"
  const ExecCredentialApiVersion: string := "client.authentication.k8s.io/v1alpha1"

  datatype EksCredentialStatus = EksCredentialStatus(token: string)

  /** The Kubernetes exec-credential document; `spec` is always empty. */
  datatype EksCredential = EksCredential(
    kind: string,
    apiVersion: string,
    spec: map<(), ()>,
    status: EksCredentialStatus)

  /** The fixed envelope around a token. */
  function Envelope(token: string): (e: EksCredential)
    ensures e.status.token == token
    ensures ValidExecCredential(e) <==> ParseToken(token).Some?
  {
    EksCredential(ExecCredentialKind, ExecCredentialApiVersion, map[], EksCredentialStatus(token))
  }

  /** The URL inside a token: the prefix, then unpadded base64url, or None. */
  function ParseToken(token: string): Option<seq<byte>>
  {
    if |token| >= |TokenPrefix| && token[..|TokenPrefix|] == TokenPrefix
    then Decode(token[|TokenPrefix|..])
    else None
  }

  /** The shape every exec credential the helper emits has. */
  predicate ValidExecCredential(c: EksCredential)
  {
    && c.kind == ExecCredentialKind
    && c.apiVersion == ExecCredentialApiVersion
    && c.spec == map[]
    && ParseToken(c.status.token).Some?
  }

  /**
   * The checks of `get_eks_token` before presigning, in source order: the
   * region (if given) must be in the region table, the expiry (if given) must
   * be a `u64` decimal; the header set is the cluster name alone.
   */
  function EksPresignRequest(credentials: AwsCredentials, cluster: string, region: Option<string>,
                             expiresIn: Option<string>, parseRegion: RegionParser): (r: Result<PresignRequest>)
    ensures region.Some? && parseRegion(region.value).None? ==> r == Err(InvalidAwsRegion(region.value))
    ensures ((region.None? || parseRegion(region.value).Some?) && expiresIn.Some?
             && Decimal.ParseU64(expiresIn.value).Err?)
            ==> r == Err(Decimal.ParseU64(expiresIn.value).error)
    ensures r.Ok? <==> ((region.None? || parseRegion(region.value).Some?)
                        && (expiresIn.None? || Decimal.ParseU64(expiresIn.value).Ok?))
    ensures r.Ok? ==>
      && r.value.credentials == credentials
      && r.value.region == (if region.Some? then parseRegion(region.value) else None)
      && r.value.headers.Keys == {ClusterIdHeader} && r.value.headers[ClusterIdHeader] == cluster
      && (r.value.expiresIn.Some? <==> expiresIn.Some?)
      && (r.value.expiresIn.Some? ==>
            r.value.expiresIn.value <= Decimal.U64_MAX
            && Decimal.ParseU64(expiresIn.value) == Ok(r.value.expiresIn.value))
  {
    if region.Some? && parseRegion(region.value).None? then Err(InvalidAwsRegion(region.value))
    else
      var parsedRegion := if region.Some? then parseRegion(region.value) else None;
      if expiresIn.Some? && Decimal.ParseU64(expiresIn.value).Err? then Err(Decimal.ParseU64(expiresIn.value).error)
      else
        var seconds := if expiresIn.Some? then Some(Decimal.ParseU64(expiresIn.value).value) else None;
        Ok(PresignRequest(credentials, parsedRegion, map[ClusterIdHeader := cluster], seconds))
  }

  /**
   * `get_eks_token`: validate the arguments, presign, then build the token in a
   * string buffer that starts as the prefix and has the URL's base64url
   * encoding appended. A failed check produces no token.
   */
  method GetEksToken(credentials: AwsCredentials, cluster: string, region: Option<string>,
                     expiresIn: Option<string>, parseRegion: RegionParser, presign: Presigner)
    returns (r: Result<EksCredential>)
    ensures var req := EksPresignRequest(credentials, cluster, region, expiresIn, parseRegion);
      && (req.Err? ==> r == Err(req.error))
      && (req.Ok? ==>
            && r.Ok?
            && ValidExecCredential(r.value)
            && r.value.status.token == TokenPrefix + Encode(presign(req.value))
            && ParseToken(r.value.status.token) == Some(presign(req.value)))
  {
    var req := EksPresignRequest(credentials, cluster, region, expiresIn, parseRegion);
    if req.Err? {
      return Err(req.error);
    }
    var token := TokenPrefix;
    var url := presign(req.value);
    token := EncodeConfigBuf(url, token);
    TokenRoundTrip(url);
    r := Ok(Envelope(token));
  }

  /** The token carries the URL recoverably: stripping the prefix and decoding gives it back. */
  lemma TokenRoundTrip(url: seq<byte>)
    ensures ParseToken(TokenPrefix + Encode(url)) == Some(url)
  {
    var t := TokenPrefix + Encode(url);
    assert t[..|TokenPrefix|] == TokenPrefix;
    assert t[|TokenPrefix|..] == Encode(url);
    DecodeEncode(url);
  }

  /** A token names exactly one URL: the only token for `url` is prefix plus its encoding. */
  lemma TokenUnique(token: string, url: seq<byte>)
    ensures ParseToken(token) == Some(url) <==> token == TokenPrefix + Encode(url)
  {
    if ParseToken(token) == Some(url) {
      DecodeIffEncode(token[|TokenPrefix|..], url);
      assert token == token[..|TokenPrefix|] + token[|TokenPrefix|..];
    }
    if token == TokenPrefix + Encode(url) {
      TokenRoundTrip(url);
    }
  }

  /**
   * The suffix after the prefix is URL-safe base64 with no padding, four
   * symbols per three URL bytes plus two or three for a remainder.
   */
  lemma TokenShape(url: seq<byte>)
    ensures var token := TokenPrefix + Encode(url); var n := |url|;
      && token[..|TokenPrefix|] == TokenPrefix
      && |token| == |TokenPrefix| + 4 * (n / 3) + (if n % 3 == 0 then 0 else n % 3 + 1)
      && (forall i :: |TokenPrefix| <= i < |token| ==> IsUrlSafe(token[i]))
      && '=' !in token
  {
    var token := TokenPrefix + Encode(url);
    EncodeAlphabet(url);
    forall i | |TokenPrefix| <= i < |token| ensures IsUrlSafe(token[i]) {
      assert token[i] == Encode(url)[i - |TokenPrefix|];
    }
    assert '=' !in TokenPrefix;
  }
}
