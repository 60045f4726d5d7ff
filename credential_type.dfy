/**
 * The credential type selected on the command line: a closed enumeration
 * parsed case-insensitively from one word.
 */
module CredentialTypes {
  import opened Errors

  datatype CredentialType = Gke | Eks | Gcp

  /** The accepted spellings, in the order the command line lists them. */
  const CredVariants: seq<string> := ["gke", "eks", "gcp"]

  /** The lower-case keyword that selects each variant. */
  function Keyword(t: CredentialType): string
  {
    match t
    case Gke => "gke"
    case Eks => "eks"
    case Gcp => "gcp"
  }

  /** ASCII lowercasing: 'A'..'Z' become 'a'..'z', every other character is kept. */
  function LowerChar(c: char): (d: char)
  {
    if 'A' <= c <= 'Z' then (c as int - 'A' as int + 'a' as int) as char else c
  }

  /** ASCII lowercasing of a word, character by character. */
  function ToLower(s: string): (r: string)
    ensures |r| == |s|
    ensures forall i :: 0 <= i < |s| ==> r[i] == LowerChar(s[i])
  {
    if s == [] then [] else [LowerChar(s[0])] + ToLower(s[1..])
  }

  /** `CredentialType::from_str`: match the lowercased word against the three keywords. */
  function FromStr(s: string): (r: Result<CredentialType>)
    ensures r.Ok? <==> ToLower(s) in CredVariants
    ensures r.Ok? ==> Keyword(r.value) == ToLower(s)
    ensures r.Err? ==> r.error == InvalidCredentialType
  {
    var w := ToLower(s);
    if w == "gke" then Ok(Gke)
    else if w == "eks" then Ok(Eks)
    else if w == "gcp" then Ok(Gcp)
    else Err(InvalidCredentialType)
  }

  /** Lowercasing twice is lowercasing once. */
  lemma {:induction false} ToLowerIdempotent(s: string)
    ensures ToLower(ToLower(s)) == ToLower(s)
  {
    if s != [] {
      ToLowerIdempotent(s[1..]);
    }
  }

  /** Parsing ignores case: a word and its lowercase form parse alike. */
  lemma FromStrIgnoresCase(s: string)
    ensures FromStr(s) == FromStr(ToLower(s))
  {
    ToLowerIdempotent(s);
  }

  /** A word parses to `t` exactly when its lowercase form is `t`'s keyword. */
  lemma FromStrOk(s: string, t: CredentialType)
    ensures FromStr(s) == Ok(t) <==> ToLower(s) == Keyword(t)
  {
  }

  /**
   * Totality: the parser yields a variant or the single error
   * `InvalidCredentialType`, and the error exactly for words whose lowercase
   * form is not one of the keywords.
   */
  lemma FromStrTotal(s: string)
    ensures FromStr(s).Ok? || FromStr(s) == Err(InvalidCredentialType)
    ensures FromStr(s).Err? <==> ToLower(s) !in CredVariants
  {
  }

  /** Every listed spelling parses, back to itself, and the three give three distinct variants. */
  lemma CredVariantsParse()
    ensures forall i :: 0 <= i < |CredVariants| ==>
      FromStr(CredVariants[i]).Ok? && Keyword(FromStr(CredVariants[i]).value) == CredVariants[i]
    ensures forall i, j :: 0 <= i < j < |CredVariants| ==>
      FromStr(CredVariants[i]) != FromStr(CredVariants[j])
  {
    assert ToLower("gke") == "gke";
    assert ToLower("eks") == "eks";
    assert ToLower("gcp") == "gcp";
  }

  lemma FromStrExamples()
    ensures FromStr("EKS") == Ok(Eks)
    ensures FromStr("Gke") == Ok(Gke)
    ensures FromStr("foo") == Err(InvalidCredentialType)
  {
    assert ToLower("EKS") == "eks";
    assert ToLower("Gke") == "gke";
  }
}
