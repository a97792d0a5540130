/**
 * The credentials schema of the login request body: an object with a required string
 * `email` in the JSON-schema `email` format and a required string `password` of at
 * least 8 characters.
 */
module CredentialsSchema {
  import opened Models

  const PasswordMinLength: nat := 8

  predicate IsLetterOrDigit(c: char)
  {
    'a' <= c <= 'z' || 'A' <= c <= 'Z' || '0' <= c <= '9'
  }

  /** A character allowed in an atom of the local part. */
  predicate IsAtomChar(c: char)
  {
    IsLetterOrDigit(c) || c in "!#$%&'*+/=?^_`{|}~-"
  }

  /** One or more atoms joined by single dots. */
  predicate IsLocalPart(s: string)
  {
    && |s| > 0 && s[0] != '.' && s[|s| - 1] != '.'
    && (forall i :: 0 <= i < |s| ==> IsAtomChar(s[i]) || s[i] == '.')
    && (forall i :: 0 < i < |s| && s[i] == '.' ==> s[i - 1] != '.')
  }

  /**
   * Two or more labels joined by dots, each label letters, digits and hyphens
   * that starts and ends with a letter or digit.
   */
  predicate IsDomain(s: string)
  {
    && |s| > 0 && IsLetterOrDigit(s[0]) && IsLetterOrDigit(s[|s| - 1])
    && (exists i :: 0 <= i < |s| && s[i] == '.')
    && (forall i :: 0 <= i < |s| ==> IsLetterOrDigit(s[i]) || s[i] == '-' || s[i] == '.')
    && (forall i :: 0 < i < |s| - 1 && s[i] == '.' ==> IsLetterOrDigit(s[i - 1]) && IsLetterOrDigit(s[i + 1]))
  }

  /** `format: 'email'`: a local part, one `@`, and a domain. */
  predicate IsEmail(s: string)
  {
    exists k :: 0 <= k < |s| && s[k] == '@' && IsLocalPart(s[..k]) && IsDomain(s[k + 1..])
  }

  /** A body the schema accepts. */
  predicate MatchesCredentialsSchema(credentials: Credentials)
  {
    IsEmail(credentials.email) && |credentials.password| >= PasswordMinLength
  }

  /** An accepted email holds exactly one `@`, and the parts around it are determined by it. */
  lemma EmailHasOneAt(s: string, k: int)
    requires 0 <= k < |s| && s[k] == '@' && IsLocalPart(s[..k]) && IsDomain(s[k + 1..])
    ensures forall j :: 0 <= j < |s| && s[j] == '@' ==> j == k
  {
    assert forall j :: 0 <= j < k ==> s[j] == s[..k][j];
    assert forall j :: k < j < |s| ==> s[j] == s[k + 1..][j - k - 1];
  }

  /** `local@domain` is an email when its two parts are well formed. */
  lemma EmailFromParts(local: string, domain: string)
    requires IsLocalPart(local) && IsDomain(domain)
    ensures IsEmail(local + "@" + domain)
  {
    var s := local + "@" + domain;
    assert s[..|local|] == local;
    assert s[|local| + 1..] == domain;
  }

  lemma ExampleDomain()
    ensures IsDomain("x.com")
  {
    assert "x.com"[1] == '.';
  }

  lemma ExampleLocalParts()
    ensures IsLocalPart("a") && IsLocalPart("unknown")
  {
    assert forall i :: 0 <= i < |"unknown"| ==> IsLetterOrDigit("unknown"[i]);
  }

  /** The credentials of the successful-login example match the schema. */
  lemma KnownUserCredentialsAccepted()
    ensures MatchesCredentialsSchema(Credentials("a@x.com", "secret123"))
  {
    var s := "a@x.com";
    ExampleDomain();
    ExampleLocalParts();
    assert s[1] == '@' && s[..1] == "a" && s[2..] == "x.com";
  }

  /** The credentials of the unknown-email example match the schema too, so they reach verification. */
  lemma UnknownUserCredentialsAccepted()
    ensures MatchesCredentialsSchema(Credentials("unknown@x.com", "anything1"))
  {
    var s := "unknown@x.com";
    ExampleDomain();
    ExampleLocalParts();
    assert s[7] == '@' && s[..7] == "unknown" && s[8..] == "x.com";
  }

  /** A domain without a dot, a missing `@` and a short password are refused. */
  lemma ExampleCredentialsRefused()
    ensures !IsEmail("a@x")
    ensures !IsEmail("ax.com")
    ensures !MatchesCredentialsSchema(Credentials("a@x.com", "short"))
  {
    var s := "a@x";
    assert forall k :: 0 <= k < |s| && s[k] == '@' ==> k == 1;
    assert s[2..] == "x";
  }
}
