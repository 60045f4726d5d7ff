# vault-k8s-helper, modelled in Dafny

`vault-k8s-helper` is a credential helper. It reads short-lived cloud
credentials from a Vault secret backend, or from the Google auth SDK, and
prints them in the JSON form that Kubernetes tooling expects. This project
models its deterministic core and proves what that core promises:

- **Credential type** (`credential_type.dfy`, module `CredentialTypes`).
  The command-line word is matched case-insensitively onto `Gke`, `Eks` or
  `Gcp`. Any other word is the single error `InvalidCredentialType`.
- **AWS leases** (`aws.dfy`, module `Aws`).
  - The lease path is split on `/`. It must have exactly three pieces, and
    the middle one must be `creds`.
  - The backend's lease becomes credentials unchanged. They expire
    `lease_duration` seconds after now exactly when a session token is present.
- **EKS tokens** (`aws.dfy`, with `decimal.dfy` and `base64url.dfy`).
  - The region and expiry arguments are checked. The expiry is read as Rust's
    `u64::from_str` reads it (module `Decimal`).
  - The presigner gets a single `x-k8s-aws-id` header.
  - The token is built in a buffer: the prefix `k8s-aws-v1.`, then the
    presigned URL in unpadded base64url. That is the alphabet of section 5 of
    RFC 4648, with padding omitted as section 3.2 permits (module `Base64Url`).
  - The token goes into the fixed `ExecCredential` envelope.
- **GCP tokens** (`gcp.dfy`, module `Gcp`, with `calendar.dfy`).
  - From the backend's JSON response, the epoch expiry is read from
    `expires_at_seconds`. It is range-checked into a signed 64-bit value and
    rendered as an RFC 3339 date-time.
  - A token from the Google auth SDK defaults its expiry to now plus fifty
    minutes. Its ttl is the distance between expiry and now.
  - Module `Calendar` does the rendering. It splits epoch seconds into
    proleptic Gregorian civil fields with integer arithmetic and writes
    `YYYY-MM-DDTHH:MM:SSZ` (section 5.6 of RFC 3339). An independent reader of
    that text proves each rendering names exactly the instant it came from.
- `errors.dfy` (module `Errors`) holds the `Option`/`Result` wrappers and the
  error kinds the core raises.

Things outside this code are parameters of the model:
- the clock (`now`, in epoch seconds);
- the secret backend (`Backend`);
- the AWS region table (`RegionParser`);
- the SigV4 presigner (`Presigner`, returning the URL's bytes).

`GetEksToken` and `EncodeConfigBuf` are methods, because the source builds
the token in a mutable string that the encoder appends to group by group.
Everything else is a function, as in the source.

The code does not reject empty pieces, so `"/creds/"` is accepted with an
empty mount and an empty role (`Aws.ParseLeasePathAcceptsEmpty`).

## Model

| member | source | states |
|---|---|---|
| CredentialTypes.ToLower | src/main.rs:31 | the lowercase word has the same length, and each character is the ASCII lowercase of the character in its place |
| CredentialTypes.FromStr | src/main.rs:30-37 | a word parses exactly when its lowercase form is in the variant list, to the variant with that keyword; every other word gives `InvalidCredentialType` |
| CredentialTypes.FromStrOk | src/main.rs:30-37 | a word parses to a variant exactly when its lowercase form is that variant's keyword (`gke`, `eks`, `gcp`) |
| CredentialTypes.FromStrIgnoresCase | src/main.rs:31 | parsing a word and parsing its lowercase form give the same result |
| CredentialTypes.ToLowerIdempotent | src/main.rs:31 | lowercasing twice is lowercasing once |
| CredentialTypes.FromStrTotal | src/main.rs:30-37 | the result is a variant or the single error `InvalidCredentialType`; the error comes exactly when the lowercase word is not in the variant list |
| CredentialTypes.CredVariantsParse | src/main.rs:25 | every entry of the variant list parses back to its own keyword, and the three entries give three distinct variants |
| CredentialTypes.FromStrExamples | src/main.rs:32-35 | `"EKS"` gives `Eks`, `"Gke"` gives `Gke`, `"foo"` gives `InvalidCredentialType` |
| Aws.ParseLeasePath | src/aws.rs:30-39 | the only error the path check raises is `InvalidVaultPath` |
| Aws.ParseLeasePathIff | src/aws.rs:30-39 | a path is accepted with mount `m` and role `r` exactly when it is `m/creds/r` and neither `m` nor `r` holds a `/` (empty pieces allowed) |
| Aws.Split | src/aws.rs:30 | a split always has at least one piece, so `""` gives `[""]` (joining and separator-freedom are `Aws.JoinSplit` and `Aws.SplitPieces`) |
| Aws.JoinSplit | src/aws.rs:30 | splitting on `/` loses nothing: the pieces joined with `/` give the path back |
| Aws.SplitJoin | src/aws.rs:30 | pieces free of `/`, joined with `/`, split back into exactly those pieces, empty ones included |
| Aws.SplitPieces | src/aws.rs:30 | no piece of a split contains the separator |
| Aws.ParseLeasePathRejectsTwo | src/aws.rs:31-33 | a path of two pieces gives `InvalidVaultPath` |
| Aws.ParseLeasePathRejectsMiddle | src/aws.rs:34-36 | three pieces whose middle is not exactly `creds` give `InvalidVaultPath` |
| Aws.ParseLeasePathAccepts | src/aws.rs:38-39 | `"aws/creds/deploy-role"` gives mount `aws` and role `deploy-role` |
| Aws.ParseLeasePathAcceptsEmpty | src/aws.rs:38-39 | `"/creds/"` is accepted with an empty mount and an empty role |
| Aws.ParseLeasePathRejectsTwoPieces | src/aws.rs:31-33 | `"aws/deploy-role"` gives `InvalidVaultPath` |
| Aws.ParseLeasePathRejectsOtherLiteral | src/aws.rs:34-36 | `"aws/token/deploy-role"` gives `InvalidVaultPath` |
| Aws.CredentialsFromLease | src/aws.rs:47-58 | the credentials keep the lease's keys and token, and expire at `now + lease_duration` exactly when the lease has a session token |
| Aws.ReadAwsCredentials | src/aws.rs:25-59 | an invalid path fails with `InvalidVaultPath` whatever the backend would answer; otherwise a backend error is passed on unchanged, and a lease gives credentials with its keys and token unchanged that expire at `now + lease_duration` exactly when a session token is present |
| Aws.ReadAwsCredentialsAsksFor | src/aws.rs:38-41 | for the path `m/creds/r` the backend is asked for exactly mount `m` and role `r`, and its answer decides the result |
| Aws.LeaseExpiryExamples | src/aws.rs:47-51 | a lease with a session token expires at `now + 900`; one without it has no expiry |
| Aws.EksPresignRequest | src/aws.rs:67-75 | an unknown region gives `InvalidAwsRegion`; otherwise a bad expiry gives the `u64` parse error; both valid exactly when the result is Ok; the header map is `{x-k8s-aws-id: cluster}` and nothing else; the expiry is present exactly when given and is its parsed value |
| Aws.GetEksToken | src/aws.rs:61-89 | a failed check is returned and no token is made; otherwise the envelope has the fixed kind, apiVersion and empty spec, and its token is `k8s-aws-v1.` followed by the base64url of the presigned URL, and decodes back to that URL |
| Aws.Envelope | src/aws.rs:83-88 | the envelope carries the token unchanged, and it is a well-formed ExecCredential (fixed kind and apiVersion, empty spec, decodable token) exactly when the token is the prefix followed by a valid base64url text |
| Aws.TokenRoundTrip | src/aws.rs:77-81 | removing the prefix and decoding a minted token gives back the URL |
| Aws.TokenUnique | src/aws.rs:77-81 | a token decodes to `url` exactly when it is the prefix followed by the encoding of `url` |
| Aws.TokenShape | src/aws.rs:77-81 | the token starts with the prefix; its suffix has length `4*(n/3)` plus 0, 2 or 3 for `n` URL bytes, holds only `A-Z a-z 0-9 - _`, and has no `=` |
| Base64Url.EncodeConfigBuf | src/aws.rs:81 | appending to a buffer group by group leaves the buffer followed by the base64url encoding of the whole input |
| Base64Url.DecodeEncode | src/aws.rs:81 | decoding the encoding of any byte sequence gives it back |
| Base64Url.EncodeDecode | src/aws.rs:81 | every text the strict decoder accepts is the encoding of what it decodes to |
| Base64Url.DecodeIffEncode | src/aws.rs:81 | a text decodes to `s` exactly when it is the encoding of `s` |
| Base64Url.Encode | src/aws.rs:81 | the encoding of `n` bytes has `4*(n/3)` symbols, plus `n%3+1` when `n%3` is not 0 |
| Base64Url.EncodeAlphabet | src/aws.rs:81 | every symbol of the encoding is URL-safe, and there is no padding `=` |
| Decimal.ParseU64 | src/aws.rs:72 | an accepted expiry never exceeds `u64::MAX` (which strings are accepted is `Decimal.ParseU64Ok`) |
| Decimal.ParseU64Ok | src/aws.rs:72 | after an optional `+`, exactly the non-empty all-digit strings whose value fits in 64 bits parse, to that value |
| Decimal.ParseDecimalString | src/aws.rs:72 | every value up to `u64::MAX`, written in decimal with or without `+`, parses back to itself |
| Calendar.ToDateTime | src/gcp.rs:68 | the hour, minute and second of any instant are a valid time of day (that the fields are the date `t` seconds after the epoch is `Calendar.ToDateTimeCorrect`) |
| Calendar.ToDateTimeCorrect | src/gcp.rs:68 | the civil fields of `t` are a real date and time of day, and they lie exactly `t` seconds after 1970-01-01T00:00:00Z |
| Calendar.ToDateTimeYear | src/gcp.rs:68 | the instants in the renderable range are exactly those whose year is 0000 to 9999 |
| Calendar.DaysBeforeYearStep | src/gcp.rs:68 | the year count starts at 0 in 1970 and grows by 366 in leap years and by 365 otherwise |
| Calendar.DaysBeforeMonthStep | src/gcp.rs:68 | the table of days before each month agrees with the month lengths (February 29 days in leap years), and the months fill a year of 365 or 366 days |
| Calendar.CycleLength | src/gcp.rs:68 | every span of 400 consecutive Gregorian years holds 146097 days |
| Calendar.CycleStart | src/gcp.rs:68 | the 400-year cycles counted from 1970 start `146097*q` days after the epoch |
| Calendar.Rfc3339 | src/gcp.rs:68-69 | reading the rendered text gives back `t`: the text names the instant `t` seconds after the epoch |
| Calendar.Rfc3339Shape | src/gcp.rs:69 | the rendered text is 20 characters, with `-`, `-`, `T`, `:`, `:` in fixed places, ends in `Z`, and never has a fractional part |
| Calendar.Rfc3339Injective | src/gcp.rs:69 | two instants render to the same text exactly when they are equal |
| Calendar.Rfc3339Epoch | src/gcp.rs:68-69 | the epoch renders as `1970-01-01T00:00:00Z` |
| Gcp.DecodeTimestamp | src/gcp.rs:46-64 | a decoded timestamp always fits in a signed 64-bit integer |
| Gcp.DecodeTimestampOk | src/gcp.rs:46-64 | exactly every `i64` value, and the `u64` values up to `i64::MAX`, decode, each to itself |
| Gcp.DecodeTimestampOutOfRange | src/gcp.rs:59-63 | a `u64` value above `i64::MAX` gives the "i64 out of range" error naming the value, and only such a value does |
| Gcp.TimestampToIso | src/gcp.rs:34-70 | it succeeds exactly when the timestamp decodes, and the text then reads back as the decoded instant; a decode error is passed on unchanged |
| Gcp.DecodeTtl | src/gcp.rs:17 | `token_ttl` is read verbatim from an unsigned value, or from a signed value that is not negative |
| Gcp.DecodeString | src/gcp.rs:15 | the token is read verbatim from a string value and from nothing else |
| Gcp.Deserialize | src/gcp.rs:10-18 | every failure is a JSON error; an accepted response has all three fields, and its token is the response's `token` string |
| Gcp.DeserializeMalformedFirst | src/gcp.rs:10-18 | a failure is a missing-field error exactly when no present field is malformed: malformed fields are reported first |
| Gcp.DeserializeMalformedExample | src/gcp.rs:15 | `{"token": 5}` fails on the token's type, not on the missing `expires_at_seconds` |
| Gcp.DeserializeOk | src/gcp.rs:10-18 | a response is accepted exactly when `expires_at_seconds`, `token` and `token_ttl` are all present and well typed; the expiry text then names the instant read, and the token and ttl are the response's own |
| Gcp.DeserializeIgnoresOtherFields | src/gcp.rs:10-18 | adding or changing any other field of the response changes nothing |
| Gcp.DeserializeNeedsReadName | src/gcp.rs:13 | the expiry is read from `expires_at_seconds` only: without it the response is always refused, as missing that field when no other field is malformed |
| Gcp.Serialize | src/gcp.rs:13-16 | the expiry is written under `token_expiry` and the token under `token`; no field is named `token_ttl` or `expires_at_seconds` |
| Gcp.SerializeNames | src/gcp.rs:13-16 | the token is written as `token_expiry` then `token`; `token_ttl` and `expires_at_seconds` are never written |
| Gcp.SerializeNotReadable | src/gcp.rs:13 | the written fields, read back as a response, are refused because the expiry is under the other name |
| Gcp.EffectiveExpiry | src/gcp.rs:22-25 | the SDK's expiry is used unchanged when present; otherwise it is now plus 3000 seconds |
| Gcp.FromGcpAuth | src/gcp.rs:21-31 | the token text is copied verbatim, the expiry text names the effective expiry, and the ttl is the non-negative distance between expiry and now |
| Gcp.FromGcpAuthDefault | src/gcp.rs:22-29 | without an SDK expiry the ttl is 3000 and the expiry reads as now plus 3000 |
| Gcp.FromGcpAuthPast | src/gcp.rs:29 | an expiry in the past still gives a non-negative ttl: how long ago it was |
| Gcp.SameExpiryFormat | src/gcp.rs:28 | the response path and the SDK path write the same instant as the same text, 20 characters long, ending in `Z`, with no fractional part |
| Gcp.TimestampToIsoEpoch | src/gcp.rs:67-69 | the timestamp 0 renders as `1970-01-01T00:00:00Z`, and a negative timestamp is accepted |

## Left out

- Network calls are not modelled. Vault's "generate AWS credentials" is the `Backend` parameter. Reading the GCP secret and the Google auth SDK calls are left out; their results are inputs (a JSON field map, an `SdkToken`).
- SigV4 presigning is a foreign library. It is the `Presigner` parameter, which returns the URL's bytes.
- The AWS SDK's region table is the `RegionParser` parameter.
- The command-line parser, the dispatch in `main`, reading the Vault token and files, and writing to stdout or files are I/O. They are not part of this model.
- The `From` conversions of `src/error.rs` wrap foreign error types and are not part of this model. `Errors.Error` keeps only the kinds the core raises. Backend failures are one opaque `VaultError`.
- Pretty-printed JSON layout and debug logging are left out. Serialising a token is modelled as its ordered list of field names and values.
- Gcp.FromGcpAuth: the clock is read once, as `now`. The source reads it twice, so a real run can give ttl 2999 instead of 3000. Sub-second truncation of the clock is also left out.
- Gcp.FromGcpAuth: requires the expiry minus now to fit in a signed 64-bit value. The source's `abs` and `as u64` cannot wrap in that range.
- Calendar.Rfc3339: requires a year from 0000 to 9999. Outside that range the source's date library renders a signed year wider than four digits, or panics beyond its own range.
- Gcp.TimestampToIso: requires the decoded timestamp to be in that range, for the same reason.
- Gcp.Deserialize: requires the same of `expires_at_seconds` when present.
- Gcp.Deserialize: the response is a map, so duplicate fields are not modelled. Malformed fields are always reported before missing ones, as the decoder does. When several present fields are malformed, the first in declaration order decides the error, while the decoder reports the first in the text; the map does not keep text order.
- Gcp.Wire: how the JSON number grammar picks a signed, unsigned or floating value is not modelled. The decoder's choice is the input.
- CredentialTypes.ToLower lowercases ASCII letters only. Full Unicode lowercasing is not modelled; for example, KELVIN SIGN (U+212A) lowercases to `k`.
- Aws.CredentialsFromLease: `lease_duration` is an unbounded natural number. The source's `as i64` cast and the date library's overflow on huge durations are not modelled.
- The live tests in `src/main.rs`, `src/aws.rs` and `src/gcp.rs` need a running Vault server and are not modelled.
