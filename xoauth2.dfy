/** The SASL XOAUTH2 initial client response built by `XOauth2`
    (Program.cs): `user=<name>^Aauth=Bearer <token>^A^A`, where ^A is the
    control character U+0001, encoded as UTF-8 and then as padded base 64. */
module XOAuth2 {
  import opened Basics
  import Utf8
  import Base64

  /** The two fields of the sign-in result that `XOauth2` reads:
      `Account.Username` and `AccessToken`. */
  datatype AuthenticationResult = AuthenticationResult(username: string, accessToken: string)

  /** `(char)1`, the separator of the XOAUTH2 response. */
  const CtrlA: char := 1 as char

  /** The login string before any encoding. */
  function Login(a: AuthenticationResult): (s: string)
    ensures |s| == |a.username| + |a.accessToken| + 20
  {
    "user=" + a.username + [CtrlA] + "auth=Bearer " + a.accessToken + [CtrlA, CtrlA]
  }

  /** `XOauth2`: base 64 of the UTF-8 of the login string. */
  function XOauth2(a: AuthenticationResult): (r: string)
    ensures |r| == 4 * ((|Utf8.Encode(Login(a))| + 2) / 3)
  {
    Base64.Encode(Utf8.Encode(Login(a)))
  }

  /** The octets of "user=" and of "auth=Bearer ". */
  const UserOctets: seq<byte> := [0x75, 0x73, 0x65, 0x72, 0x3D]
  const AuthOctets: seq<byte> := [0x61, 0x75, 0x74, 0x68, 0x3D, 0x42, 0x65, 0x61, 0x72, 0x65, 0x72, 0x20]

  /** The exact octet layout of the login before base 64: the user field,
      one 0x01, the bearer field, two 0x01, and nothing else. */
  lemma LoginOctets(a: AuthenticationResult)
    ensures Utf8.Encode(Login(a))
         == UserOctets + Utf8.Encode(a.username) + [0x01]
          + AuthOctets + Utf8.Encode(a.accessToken) + [0x01, 0x01]
  {
    LoginPieces(a);
    UserOctetsAre();
    AuthOctetsAre();
    CtrlAOctets();
  }

  // The octets of the fixed parts of the login.

  lemma UserOctetsAre()
    ensures Utf8.Encode("user=") == UserOctets
  {
    AsciiOctets("user=", UserOctets);
  }

  lemma AuthOctetsAre()
    ensures Utf8.Encode("auth=Bearer ") == AuthOctets
  {
    AsciiOctets("auth=Bearer ", AuthOctets);
  }

  /** ASCII text is its own character codes in UTF-8. */
  lemma AsciiOctets(s: string, b: seq<byte>)
    requires |s| == |b| && forall i :: 0 <= i < |s| ==> s[i] < 0x80 as char && s[i] as int == b[i]
    ensures Utf8.Encode(s) == b
  {
    Utf8.EncodeAscii(s);
  }

  lemma CtrlAOctets()
    ensures Utf8.Encode([CtrlA]) == [0x01]
    ensures Utf8.Encode([CtrlA, CtrlA]) == [0x01, 0x01]
  {
    Utf8.EncodeAppend([CtrlA], [CtrlA]);
  }

  /** UTF-8 encodes the login piece by piece. */
  lemma LoginPieces(a: AuthenticationResult)
    ensures Utf8.Encode(Login(a))
         == Utf8.Encode("user=") + Utf8.Encode(a.username) + Utf8.Encode([CtrlA])
          + Utf8.Encode("auth=Bearer ") + Utf8.Encode(a.accessToken) + Utf8.Encode([CtrlA, CtrlA])
  {
    var p1, u, c1, p2, t, c2 := "user=", a.username, [CtrlA], "auth=Bearer ", a.accessToken, [CtrlA, CtrlA];
    Utf8.EncodeAppend(p1 + u + c1 + p2 + t, c2);
    Utf8.EncodeAppend(p1 + u + c1 + p2, t);
    Utf8.EncodeAppend(p1 + u + c1, p2);
    Utf8.EncodeAppend(p1 + u, c1);
    Utf8.EncodeAppend(p1, u);
  }

  /** The index of the first `c` in `s`, or `|s|` when there is none. */
  function Find(s: string, c: char): (k: nat)
    ensures k <= |s|
    ensures k < |s| ==> s[k] == c
    ensures forall i :: 0 <= i < k ==> s[i] != c
  {
    if s == [] then 0
    else if s[0] == c then 0
    else 1 + Find(s[1..], c)
  }

  /** Splits a login string back into its two fields: the user name runs to
      the first ^A, the token from "auth=Bearer " to the closing ^A^A. */
  function ParseLogin(s: string): (r: Option<AuthenticationResult>)
  {
    if !StartsWith(s, "user=") then None
    else
      var k := 5 + Find(s[5..], CtrlA);
      if k == |s| || !StartsWith(s[k + 1..], "auth=Bearer ") then None
      else
        var rest := s[k + 13..];
        if |rest| < 2 || rest[|rest| - 2..] != [CtrlA, CtrlA] then None
        else Some(AuthenticationResult(s[5..k], rest[..|rest| - 2]))
  }

  /** The user name can be read back when it holds no ^A (the token may hold
      anything: it is delimited by the closing ^A^A). */
  predicate Separable(a: AuthenticationResult)
  {
    CtrlA !in a.username
  }

  /** Parsing inverts building, for every separable result. */
  lemma ParseLogin_Login(a: AuthenticationResult)
    requires Separable(a)
    ensures ParseLogin(Login(a)) == Some(a)
  {
    var s, u, t := Login(a), a.username, a.accessToken;
    assert s[..5] == "user=";
    assert s[5..] == u + [CtrlA] + "auth=Bearer " + t + [CtrlA, CtrlA];
    var k := 5 + Find(s[5..], CtrlA);
    assert s[5 + |u|] == CtrlA;
    assert forall i :: 0 <= i < |u| ==> s[5..][i] == u[i];
    assert k == 5 + |u|;
    assert s[5..k] == u;
    assert s[k + 1..] == "auth=Bearer " + t + [CtrlA, CtrlA];
    assert StartsWith(s[k + 1..], "auth=Bearer ");
    var rest := s[k + 13..];
    assert rest == t + [CtrlA, CtrlA];
    assert rest[|rest| - 2..] == [CtrlA, CtrlA];
    assert rest[..|rest| - 2] == t;
  }

  /** Building inverts parsing: whatever ParseLogin accepts is exactly the
      login of the fields it returns. */
  lemma Login_ParseLogin(s: string)
    requires ParseLogin(s).Some?
    ensures Separable(ParseLogin(s).value)
    ensures Login(ParseLogin(s).value) == s
  {
    var k := 5 + Find(s[5..], CtrlA);
    var rest := s[k + 13..];
    var a := ParseLogin(s).value;
    assert forall i :: 0 <= i < |a.username| ==> a.username[i] == s[5..][i];
    var n := |rest| - 2;
    assert s[..5] == "user=" && s[k + 1..k + 13] == "auth=Bearer " && [s[k]] == [CtrlA];
    assert rest[..n] == a.accessToken && rest[n..] == [CtrlA, CtrlA];
    Slices(s, k, n);
  }

  /** A string cut at the places ParseLogin cuts it is the pieces joined. */
  lemma Slices(s: string, k: nat, n: nat)
    requires 5 <= k && k + 13 + n <= |s|
    ensures var rest := s[k + 13..];
            s == s[..5] + s[5..k] + [s[k]] + s[k + 1..k + 13] + rest[..n] + rest[n..]
  {
    var rest := s[k + 13..];
    assert rest == rest[..n] + rest[n..];
  }

  /** Reads an XOAUTH2 response back: base 64, then UTF-8, then the layout. */
  function DecodeXOauth2(blob: string): (r: Option<AuthenticationResult>)
  {
    match Base64.Decode(blob)
    case None => None
    case Some(octets) =>
      match Utf8.Decode(octets)
      case None => None
      case Some(login) => ParseLogin(login)
  }

  /** Decoding the response with base 64 and then UTF-8 gives back the login
      string exactly, for every user name and token. */
  lemma XOauth2_DecodesToLogin(a: AuthenticationResult)
    ensures Base64.Decode(XOauth2(a)) == Some(Utf8.Encode(Login(a)))
    ensures Utf8.Decode(Utf8.Encode(Login(a))) == Some(Login(a))
  {
    Base64.DecodeEncode(Utf8.Encode(Login(a)));
    Utf8.DecodeEncode(Login(a));
  }

  /** Round trip through the whole encoder. */
  lemma DecodeXOauth2_XOauth2(a: AuthenticationResult)
    requires Separable(a)
    ensures DecodeXOauth2(XOauth2(a)) == Some(a)
  {
    XOauth2_DecodesToLogin(a);
    ParseLogin_Login(a);
  }

  /** Converse round trip: any text DecodeXOauth2 accepts is the XOauth2
      response of what it returns. */
  lemma XOauth2_DecodeXOauth2(blob: string)
    requires DecodeXOauth2(blob).Some?
    ensures XOauth2(DecodeXOauth2(blob).value) == blob
  {
    var octets := Base64.Decode(blob).value;
    var login := Utf8.Decode(octets).value;
    Base64.EncodeDecode(blob, octets);
    Utf8.EncodeDecode(octets, login);
    Login_ParseLogin(login);
  }

  /** Different separable credentials give different responses. */
  lemma XOauth2Injective(a: AuthenticationResult, b: AuthenticationResult)
    requires Separable(a) && Separable(b)
    requires XOauth2(a) == XOauth2(b)
    ensures a == b
  {
    DecodeXOauth2_XOauth2(a);
    DecodeXOauth2_XOauth2(b);
  }

  /** The shape of the response: 4 * ceil(n / 3) characters for the n octets
      of the login, all from the base 64 alphabet except a final run of zero,
      one or two `=`, and so all ASCII. */
  lemma XOauth2Shape(a: AuthenticationResult)
    ensures var n, r := |Utf8.Encode(Login(a))|, XOauth2(a);
            && |r| == 4 * ((n + 2) / 3)
            && (forall i :: 0 <= i < |r| - Base64.PadCount(n) ==> Base64.InAlphabet(r[i]))
            && (forall i :: |r| - Base64.PadCount(n) <= i < |r| ==> r[i] == Base64.Pad)
            && Base64.PadCount(n) <= 2
            && IsAscii(r)
  {
    var n, r := |Utf8.Encode(Login(a))|, XOauth2(a);
    Base64.EncodeAlphabet(Utf8.Encode(Login(a)));
    assert forall i :: 0 <= i < |r| ==> Base64.InAlphabet(r[i]) || r[i] == Base64.Pad;
  }
}
