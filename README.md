# IMAP XOAUTH2 sample — a Dafny model

The sample program signs in to a mail server with an OAuth2 access token and
asks for the number of unseen messages in the inbox. Two parts of it carry
logic, and this project models both and proves properties of them:

- **The XOAUTH2 credential encoder** (`XOauth2`). It builds the SASL XOAUTH2
  initial client response `user=<name>^Aauth=Bearer <token>^A^A`, where ^A is
  the control character U+0001. It encodes that text as UTF-8 (RFC 3629) and
  then as padded base 64 with the standard alphabet (section 4 of RFC 4648).
  The model writes both encodings out in Dafny (`Utf8`, `Base64`). It also
  gives each a strict decoder and proves the round trips in both directions.
  It then proves that the response decodes back to the login text exactly,
  and the exact octet layout of that text (`XOAuth2`).
- **The IMAP command sequence** (`RetrieveMessages`, `ReadSSLStream`,
  `WriteSSLStream`). The TLS stream becomes a `Session` object with two
  fields. `inbound` is the queue of segments a scripted server has sent and
  that have not been read yet. `transcript` is every read and write so far.
  The methods update those fields as the source's stream calls would. Each
  method is specified against pure functions: `Read` and `ReadSSLStream`
  against `Receive`, `WriteSSLStream` against `Line`, and
  `RetrieveMessages` against `Conversation`. Lemmas about those functions prove the
  following for every script:
  - which commands are sent, and in what order;
  - that no STATUS and no LOGOUT follow a rejected AUTHENTICATE;
  - that reads and writes alternate;
  - that the reads consume the server's octets in order, at most 2048 at a
    time.

Modules: `Basics` (octets, `Option`, `Flatten`), `Utf8`, `Base64`, `XOAuth2`
and `Imap`. Each file holds one module.

The model follows the code as written:

- The encoder does not reject an empty user name or token. The caller
  checks only for an empty token (Program.cs:67), and that check is not part
  of this model.
- After an AUTHENTICATE reply that starts with `$ NO AUTHENTICATE`, nothing
  more is written: no STATUS and no LOGOUT.
- Every command uses the fixed tag `$`. Replies are not matched against the
  tag. Each exchange does exactly one read, with no line buffering. The
  capability list is never checked.

## Model

| member | source | states |
|---|---|---|
| `Utf8.EncodeChar` | Program.cs:153 | The octets of one scalar value, as in the table in section 3 of RFC 3629: 1, 2, 3 or 4 of them, by the value's range (`Width`). `DecodeFirstOfEncoded` proves the decoder reads the value back. |
| `Utf8.Encode` | Program.cs:153 | `Encoding.UTF8.GetBytes`: the encodings of the characters, in order. The result has between one and four octets per character. `DecodeEncode`, `EncodeDecode` and `EncodeAppend` state its other properties. |
| `Utf8.DecodeFirst` | Program.cs:153 | The UTF-8 decoder accepts only the shortest encoding of a scalar value. Whatever it reads back, re-encoding gives exactly the octets it consumed. |
| `Utf8.EncodeAppend` | Program.cs:153 | `Encoding.UTF8.GetBytes` of a concatenation is the concatenation of the encodings. |
| `Utf8.DecodeEncode` | Program.cs:153 | Decoding the UTF-8 of any string gives that string back. |
| `Utf8.EncodeDecode` | Program.cs:153 | Every octet string the decoder accepts is the UTF-8 encoding of the string it returns. |
| `Utf8.EncodeAscii` | Program.cs:153 | On ASCII text, UTF-8 gives one octet per character, equal to the character code. |
| `Base64.IndexOfCharOf` | Program.cs:154 | Every 6-bit value maps to a character of the RFC 4648 alphabet, and that character maps back to the value. |
| `Base64.CharOfIndexOf` | Program.cs:154 | Exactly the 64 alphabet characters have a value, and each value maps back to its character. |
| `Base64.GroupCount` | Program.cs:154 | The 6-bit groups of n octets and the `=` after them fill whole 4-character quanta. The group count modulo 4 fixes the number of `=`. |
| `Base64.UnGroupsGroups` | Program.cs:154 | Cutting octets into 6-bit groups, with zero bits filling a final partial quantum, loses nothing: the groups give the octets back. |
| `Base64.GroupsUnGroups` | Program.cs:154 | Groups that decode to octets are exactly the groups of those octets. A group count of 1 mod 4 and nonzero leftover bits are rejected. |
| `Base64.IndicesChars` | Program.cs:154 | Reading back the alphabet characters of any groups gives those groups. |
| `Base64.CharsIndices` | Program.cs:154 | Text made only of alphabet characters is the characters of the groups read from it. |
| `Base64.Encode` | Program.cs:154 | `Convert.ToBase64String` of n octets has 4·⌈n/3⌉ characters. |
| `Base64.EncodeAlphabet` | Program.cs:154 | Every character of the encoding is from the standard alphabet, except a final run of `=`. That run has 0, 1 or 2 characters, for n mod 3 equal to 0, 2 or 1. |
| `Base64.DecodeEncode` | Program.cs:154 | Decoding the base 64 of any octet string gives it back. |
| `Base64.EncodeDecode` | Program.cs:154 | The decoder accepts only canonical text: whatever it accepts is the encoding of what it returns. |
| `Base64.EncodeInjective` | Program.cs:154 | Different octet strings have different base 64 encodings. |
| `XOAuth2.LoginOctets` | Program.cs:151-153 | Before base 64, the octets are "user=", the UTF-8 user name, 0x01, "auth=Bearer ", the UTF-8 token, then 0x01 0x01. Nothing else is added. |
| `XOAuth2.Login` | Program.cs:151-152 | The login string `user=<name>^Aauth=Bearer <token>^A^A`. It is exactly 20 characters longer than the user name and token together. `ParseLogin_Login` and `Login_ParseLogin` prove it can be split back. |
| `XOAuth2.ParseLogin_Login` | Program.cs:151-152 | If the user name has no ^A, splitting the login string at its separators gives back the user name and the token. |
| `XOAuth2.Login_ParseLogin` | Program.cs:151-152 | Every text that splits into a user name and a token is exactly the login string of those two fields. |
| `XOAuth2.XOauth2` | Program.cs:149-155 | The encoder: base 64 of the UTF-8 of the login string, with 4·⌈n/3⌉ characters for its n octets. `XOauth2Shape`, `DecodeXOauth2_XOauth2`, `XOauth2_DecodeXOauth2` and `XOauth2Injective` state its properties. |
| `XOAuth2.XOauth2_DecodesToLogin` | Program.cs:149-155 | Decoding the `XOauth2` result with base 64 and then UTF-8 gives back the login string exactly, for any user name and token. |
| `XOAuth2.DecodeXOauth2_XOauth2` | Program.cs:149-155 | For a user name without ^A, the whole encoder round-trips: decoding its result gives back the user name and the token. (With ^A allowed, the user name `x^Aauth=Bearer y` and token `z` give the same login as the user name `x` and token `y^Aauth=Bearer z`.) |
| `XOAuth2.XOauth2_DecodeXOauth2` | Program.cs:149-155 | Every text that decodes as an XOAUTH2 response is the `XOauth2` result of what it decodes to. |
| `XOAuth2.XOauth2Injective` | Program.cs:149-155 | Two credentials whose user names have no ^A get the same response only if they are equal. |
| `XOAuth2.XOauth2Shape` | Program.cs:153-154 | The response has 4·⌈n/3⌉ characters for the n UTF-8 octets of the login. All are alphabet characters except 0 to 2 final `=`. So the response is ASCII. |
| `Imap.AsciiEncode` | Program.cs:101 | `Encoding.ASCII.GetBytes`: one octet per character, all below 0x80. A character below U+0080 gives its code, any other the replacement `?`. |
| `Imap.AsciiDecode` | Program.cs:94 | `Encoding.ASCII.GetString`: one ASCII character per octet. An octet of 0x80 or more gives `?`. |
| `Imap.Line` | Program.cs:101 | The octets `WriteSSLStream` sends for a command: its text and then the two-character terminator, ASCII-encoded. `LineFaithful` proves an ASCII command goes out unchanged. |
| `Imap.AsciiRoundTrip` | Program.cs:101 | The ASCII codec gives a string back exactly when the string is ASCII. Any other character is lost to the replacement `?`. |
| `Imap.AsciiDecodeFaithful` | Program.cs:94 | A read decodes to one ASCII character per octet. The result re-encodes to the octets read exactly when they are all below 0x80. |
| `Imap.LineFaithful` | Program.cs:101 | An ASCII command goes out as its own text followed by the line terminator. |
| `Imap.Receive` | Program.cs:91-93 | One stream read returns at most the buffer size in octets. The octets read, followed by what stays queued, are exactly what was queued. A read returns no octets only for an empty queue or an empty segment. After an empty segment, later segments may still arrive. |
| `Imap.Exchange` | Program.cs:117-118 | One command line written, then one read of at most 2048 octets. The octets read, followed by what stays queued, are exactly what was queued. `ExchangeStep` states what it adds to a transcript. |
| `Imap.Opening` | Program.cs:114-122 | The banner read, then CAPABILITY and AUTHENTICATE, each followed by one read: five events, the last of them the AUTHENTICATE reply. `OpeningCommands` and `OpeningReads` state its properties. |
| `Imap.Conversation` | Program.cs:114-134 | The opening, then STATUS and LOGOUT unless the AUTHENTICATE reply starts with `$ NO AUTHENTICATE`: 5 or 9 events. `ConversationCommands`, `RejectedSendsNoLogout` and `ConversationReads` state its properties. |
| `Imap.AlternatingStep` | Program.cs:117-118 | A write and then a read, appended to a transcript in which reads and writes alternate, keep them alternating. |
| `Imap.ExchangeStep` | Program.cs:117-118 | A write followed by one read adds one command and one reply, and keeps reads and writes alternating. The reply's octets move from the queue to the replies. |
| `Imap.OpeningCommands` | Program.cs:114-122 | The banner read, CAPABILITY and AUTHENTICATE write exactly the lines `$ CAPABILITY` and the AUTHENTICATE line, in that order. |
| `Imap.ClosingCommands` | Program.cs:128-133 | STATUS and LOGOUT add exactly the lines `$ STATUS INBOX (unseen)` and `$ LOGOUT`, in that order, after whatever was written before. |
| `Imap.CommandsOfAscii` | Program.cs:114-134 | For any response text whose AUTHENTICATE line goes out unchanged (true of ASCII text), the lines written are CAPABILITY and AUTHENTICATE, then STATUS and LOGOUT only when the AUTHENTICATE reply is not a rejection. |
| `Imap.ConversationCommands` | Program.cs:114-134 | For any script, the lines written are `$ CAPABILITY`, then `$ AUTHENTICATE XOAUTH2 ` with the XOAUTH2 response. STATUS INBOX (unseen) and LOGOUT follow only if the AUTHENTICATE reply does not start with `$ NO AUTHENTICATE`. Each line is sent as written, with the terminator. |
| `Imap.RejectedSendsNoLogout` | Program.cs:122-124 | After a rejected AUTHENTICATE only two lines are ever written. Neither is STATUS or LOGOUT. |
| `Imap.OpeningReads` | Program.cs:114-122 | The opening does three reads around two writes, alternating. The reads consume the start of the queue in order, at most 2048 octets each. |
| `Imap.ClosingReads` | Program.cs:128-133 | STATUS and LOGOUT add two writes and two reads, alternating. The reads consume the next octets of the queue, at most 2048 each. |
| `Imap.ConversationReads` | Program.cs:114-133 | Reads and writes alternate, starting with the banner read. The rejected path has 3 reads and 2 writes; the other path has 5 reads and 4 writes. The reads consume the server's octets in order, at most 2048 per read, and lose or add nothing. |
| `Imap.Session.constructor` | Program.cs:26-27 | A connected stream whose server will send the given segments, with an empty transcript. |
| `Imap.Session.Read` | Program.cs:93 | `SslStream.Read` copies one receive into the start of the buffer, leaves the rest of the buffer alone, returns the count and records the read. |
| `Imap.Session.Write` | Program.cs:101-102 | `SslStream.Write` and `Flush` record the octets as written and leave the queue alone. |
| `Imap.Session.ReadSSLStream` | Program.cs:89-97 | Reads into a 2048-octet buffer. The reply is the ASCII decoding of exactly the octets received. |
| `Imap.Session.WriteSSLStream` | Program.cs:99-104 | Writes the ASCII octets of the command followed by the line terminator. |
| `Imap.Session.RetrieveMessages` | Program.cs:114-134 | Extends the transcript and the queue exactly as `Conversation` says, for the XOAUTH2 response of the given credentials. |

## Left out

- Token acquisition through MSAL (`TestIMAP`, Program.cs:44-87) and argument handling in `Main` (Program.cs:29-41). These are foreign library calls, interactive sign-in and glue. The model takes the user name and token as given.
- Opening the TCP connection and the TLS handshake (Program.cs:110-112). A `Session` stands for a stream that is already connected.
- Closing the stream (Program.cs:139-140, where `Close` is called twice). This is network I/O with no state the exchange depends on.
- The `SocketException` handler (Program.cs:142-145) and all console output. A write to a stream the server has closed is assumed to succeed, so the model has no exception path.
- `Environment.NewLine` depends on the platform. The model fixes it as CR LF.
- A blocking read with nothing to deliver is modelled as a read of zero octets. An empty queue, or an empty segment, gives zero octets and an empty reply string, so the exchange carries on. After an empty segment, later segments can still be read. A .NET stream whose `Read` has returned 0 stays at its end, so the scripts allow more peers than .NET does. The properties hold for every script, and so for every real peer as well.
- A segment longer than 2048 octets is delivered over several reads. Neighbouring segments are never merged: the script decides how the octets arrive.
- Imap.Conversation: the prefix test uses ordinal character comparison. `String.StartsWith(string)` compares by culture in .NET, which can ignore some zero-weight characters. Replies here are ASCII-decoded, so the two differ at most on such control characters.
- Utf8.Encode: a Dafny `char` is a Unicode scalar value. The unpaired UTF-16 surrogates that a .NET string can hold, which `Encoding.UTF8` replaces with U+FFFD, are not modelled.
