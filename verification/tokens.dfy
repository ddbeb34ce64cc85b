/** The content of the tokens `Authenticate` issues: four claims naming the
    user and an expiry time. The signature (HMAC-SHA-256 over the configured
    key) and the compact serialization are left to the JWT library and not
    modelled; what is modelled is that a relying party reading the claims
    gets the user back. */
module Tokens {
  import opened Outcomes
  import opened Entities

  /** `DateTime.UtcNow.AddHours(8)`: tokens expire eight hours after issue. */
  const LifetimeHours: nat := 8
  const SecondsPerHour: nat := 3600

  datatype ClaimType = NameIdentifier | Name | Email | Role

  datatype Claim = Claim(kind: ClaimType, value: string)

  /** The token descriptor: claims, expiry (seconds on the issuing clock),
      and the configured issuer and audience, which are not checked when the
      token is issued. */
  datatype Jwt = Jwt(claims: seq<Claim>, expires: int, issuer: string, audience: string)

  /** Who a token says its bearer is. */
  datatype Identity = Identity(id: int, nome: string, email: string, perfil: Perfil)

  predicate IsDigit(c: char) {
    '0' <= c <= '9'
  }

  predicate AllDigits(s: string) {
    forall k :: 0 <= k < |s| ==> IsDigit(s[k])
  }

  /** Decimal digits of a natural number, most significant first. */
  function NatToDecimal(n: nat): (s: string)
    ensures |s| >= 1 && AllDigits(s)
  {
    var d := (n % 10) as char + '0' as char;
    if n < 10 then [d] else NatToDecimal(n / 10) + [d]
  }

  /** The number a string of decimal digits denotes. */
  function DecimalValue(s: string): nat
    requires AllDigits(s)
  {
    if |s| == 0 then 0
    else DecimalValue(s[..|s| - 1]) * 10 + ((s[|s| - 1] as int) - ('0' as int))
  }

  lemma {:induction false} DecimalRoundTrip(n: nat)
    ensures DecimalValue(NatToDecimal(n)) == n
  {
    var s := NatToDecimal(n);
    if n >= 10 {
      DecimalRoundTrip(n / 10);
      assert s[..|s| - 1] == NatToDecimal(n / 10);
    }
  }

  /** `int.Parse` on the invariant format: optional minus sign, then at
      least one decimal digit. */
  function ParseInt(s: string): Option<int> {
    if |s| >= 2 && s[0] == '-' && AllDigits(s[1..]) then Some(-(DecimalValue(s[1..]) as int))
    else if |s| >= 1 && AllDigits(s) then Some(DecimalValue(s))
    else None
  }

  /** `int.ToString()` on the invariant format; parsing it back gives the
      number. */
  function IntToString(n: int): (s: string)
    ensures ParseInt(s) == Some(n)
  {
    if n < 0 then
      DecimalRoundTrip(-n);
      var digits := NatToDecimal(-n);
      assert ("-" + digits)[1..] == digits;
      "-" + digits
    else
      DecimalRoundTrip(n);
      NatToDecimal(n)
  }

  /** The value of the first claim of a kind, as claim lookup reads it. */
  function FindClaim(claims: seq<Claim>, kind: ClaimType): (r: Option<string>)
    ensures r.Some? <==> exists k :: 0 <= k < |claims| && claims[k].kind == kind
    ensures r.Some? ==> exists k :: 0 <= k < |claims| && claims[k] == Claim(kind, r.value)
  {
    if |claims| == 0 then None
    else if claims[0].kind == kind then Some(claims[0].value)
    else
      var r := FindClaim(claims[1..], kind);
      assert forall k :: 1 <= k < |claims| ==> claims[k] == claims[1..][k - 1];
      r
  }

  /** No two claims share a kind. */
  predicate DistinctKinds(claims: seq<Claim>) {
    forall a, b :: 0 <= a < b < |claims| ==> claims[a].kind != claims[b].kind
  }

  /** When no two claims share a kind, looking a kind up finds the one
      claim of that kind. */
  lemma ClaimOfDistinctKinds(claims: seq<Claim>, i: nat)
    requires i < |claims| && DistinctKinds(claims)
    ensures FindClaim(claims, claims[i].kind) == Some(claims[i].value)
  {
    var r := FindClaim(claims, claims[i].kind);
    var k :| 0 <= k < |claims| && claims[k] == Claim(claims[i].kind, r.value);
  }

  /** The identity a relying party reads from a token's claims, if all four
      are present and well formed. */
  function DecodeIdentity(t: Jwt): Option<Identity> {
    match (FindClaim(t.claims, NameIdentifier), FindClaim(t.claims, Name),
           FindClaim(t.claims, Email), FindClaim(t.claims, Role))
    case (Some(id), Some(nome), Some(email), Some(role)) =>
      (match (ParseInt(id), ParsePerfil(role))
       case (Some(n), Some(p)) => Some(Identity(n, nome, email, p))
       case _ => None)
    case _ => None
  }

  /** The role a token grants, as `[Authorize(Roles = …)]` reads it. */
  function RoleOf(t: Jwt): Option<Perfil> {
    match FindClaim(t.claims, Role)
    case Some(role) => ParsePerfil(role)
    case None => None
  }

  /** The four claims `GenerateJwtToken` writes for an identity, in order:
      id, name, email, role. */
  function IdentityClaims(who: Identity): seq<Claim> {
    [Claim(NameIdentifier, IntToString(who.id)), Claim(Name, who.nome),
     Claim(Email, who.email), Claim(Role, PerfilName(who.perfil))]
  }

  /** Reading the claims written for an identity gives the identity back,
      and the role claim is the identity's role. */
  lemma IdentityClaimsDecode(who: Identity, claims: seq<Claim>)
    requires claims == IdentityClaims(who)
    ensures |claims| == 4 && DistinctKinds(claims)
    ensures forall t: Jwt {:trigger DecodeIdentity(t)} :: t.claims == claims ==> DecodeIdentity(t) == Some(who)
    ensures forall t: Jwt {:trigger RoleOf(t)} :: t.claims == claims ==> RoleOf(t) == Some(who.perfil)
  {
    assert claims[0].kind == NameIdentifier && claims[1].kind == Name;
    assert claims[2].kind == Email && claims[3].kind == Role;
    assert DistinctKinds(claims);
    ClaimOfDistinctKinds(claims, 0);
    ClaimOfDistinctKinds(claims, 1);
    ClaimOfDistinctKinds(claims, 2);
    ClaimOfDistinctKinds(claims, 3);
    assert ParseInt(claims[0].value) == Some(who.id);
    assert ParsePerfil(claims[3].value) == Some(who.perfil);
  }
}
