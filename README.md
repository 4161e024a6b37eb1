# EvilSMTP authenticator, modelled in Dafny

EvilSMTP is an SMTP honeypot. It listens on the submission port and offers
STARTTLS and AUTH LOGIN/PLAIN through the `aiosmtpd` library. It captures whatever
credentials a client presents and never delivers mail. The repository's own logic
is two callbacks that the library calls:

- The authentication callback `SMTPHoneypotAuthenticator.__call__`. It upper-cases
  the mechanism name and accepts only `LOGIN` and `PLAIN`. It accepts only the
  library's `LoginPassword` data. It turns each field into text: bytes are decoded
  as UTF-8 with ill-formed bytes dropped, text is kept as it is. It appends one record,
  `Peer: <peer>, Username: <u>, Password: <p>` and a newline, to `credentials.log`. It then reports
  failure (`success=False, handled=True`) on every path, including the path where
  writing the file raised.
- The DATA handler `SMTPHoneypotHandler.handle_DATA`. It always answers
  `250 Message accepted for delivery`.

The project has three modules, one file each:

- `utf8.dfy`, module `Utf8`: a stand-in for Python's UTF-8 codec. The codec belongs
  to the Python runtime, not to this repository. This is a simplified decoder built
  from the table of well-formed byte sequences in section 4 of RFC 3629 (the encoding
  of section 3). With Python's `errors='ignore'`, each ill-formed subsequence is dropped.
  Every byte after the lead of such a subsequence is a continuation byte, and
  continuation bytes never start a well-formed sequence. So dropping one byte at a
  time gives the same text, and that is what `DecodeIgnore` does. `Encode` is the
  encoder used to state the round trip.
- `ascii.dfy`, module `AsciiCase`: `str.upper` reduced to ASCII.
- `evil_smtp.dfy`, module `EvilSmtp`: the auth data types, the `Authenticator`
  class, the specification function `Appended`, and `HandleData`. The class's field
  `log: seq<string>` holds the records appended to `credentials.log`, in order. The
  file's text is their concatenation, `FileText(log)`. `Authenticator.Authenticate`
  follows the callback statement by statement. Its contract ties the new log to
  `Appended` of the old one, and the lemmas state what `Appended` means.

Inputs that come from outside the repository's code are parameters:

- `peer` is the already-rendered text of `session.peer`.
- `outcome` says how the `with open(...)` block ended. `Written` means the record was
  written and the file closed. `FailedBeforeWrite` means opening or writing raised before
  the record reached the file. `FailedAfterWrite` means closing raised after the record
  reached the file. Both failures take the `except Exception` branch.
- The existing contents of `credentials.log` are the constructor's argument.

The model follows the code as written, which is narrower than a general
credential sink would be:

- The record holds only peer, username and password. No mechanism and no timestamp
  are written.
- An unsupported mechanism or unexpected auth data is dropped with nothing written.
  The only trace is a log message.
- Ill-formed bytes are dropped (`ignore`), not replaced.
- Fields are written without escaping. A field that holds a newline splits the record
  over several lines of the file, and can forge a line of its own (`NewlineForgesRecord`).
  A field that holds `, Password: ` makes the record ambiguous (`RecordAmbiguous`).

## Model

| member | source | states |
|---|---|---|
| `EvilSmtp.Authenticator.Authenticate` | EvilSMTP.py:16-47 | Every path returns `success == false, handled == true`. The new log is the old log followed by `Appended(...)`, and the file's text grows by exactly the text of those records. An unsupported mechanism leaves the log unchanged. So does data that is not a `LoginPassword` pair. A supported mechanism with a pair adds exactly the one record when it reached the file, even if closing then failed, and nothing when opening or writing failed. With a pair, the log either stays as it was or gains exactly that record. Earlier records stay as they were, and a log of records stays a log of records. |
| `EvilSmtp.Authenticator.constructor` | EvilSMTP.py:42 | The authenticator starts over a credential log that may already hold lines, since the file is opened for appending. |
| `EvilSmtp.IsSupported` | EvilSMTP.py:25-28 | Only a five-character name can pass the test against `["LOGIN", "PLAIN"]`. |
| `EvilSmtp.SupportedIff` | EvilSMTP.py:25-28 | A mechanism is supported if and only if it spells LOGIN or PLAIN, each letter in either case. |
| `EvilSmtp.SupportedExamples` | EvilSMTP.py:25-28 | `LOGIN`, `login` and `Plain` are supported. `CRAM-MD5`, `XOAUTH2` and `LOGIN ` (with a trailing space) are not. |
| `EvilSmtp.FieldText` | EvilSMTP.py:39-40 | Decoding a bytes field never fails and gives no more characters than there were bytes. |
| `EvilSmtp.FieldTextAgrees` | EvilSMTP.py:39-40 | A text field passes through unchanged. A bytes field holding the UTF-8 encoding of a text gives back that text. |
| `EvilSmtp.CredentialRecord` | EvilSMTP.py:43 | A record starts with `Peer: ` and ends with a newline. Its length is the lengths of the three fields plus the 31 characters of the fixed labels and the newline. |
| `EvilSmtp.RecordLayout` | EvilSMTP.py:43 | Peer, username and password each sit at an offset fixed by the lengths of the parts before it. When none of them contains a newline, the record is exactly one line. |
| `EvilSmtp.RecordAmbiguous` | EvilSMTP.py:43 | A record does not determine its fields. A username holding `, Password: ` gives the same record as a shorter username with a longer password. |
| `EvilSmtp.NewlineForgesRecord` | EvilSMTP.py:43 | Fields are not escaped. A username holding a newline followed by `Peer: ` makes the record two lines of the file, and the second one has the record shape, with a peer chosen by the client. |
| `EvilSmtp.Appended` | EvilSMTP.py:25-44 | One call appends at most one record. It appends one exactly when the upper-cased mechanism is LOGIN or PLAIN, the data is a login/password pair and the record reached the file. Every appended record has the record shape. |
| `EvilSmtp.UnsupportedIgnoresData` | EvilSMTP.py:28-30 | With an unsupported mechanism nothing is appended, and neither the auth data nor the write outcome makes a difference. |
| `EvilSmtp.CaptureWritesRecord` | EvilSMTP.py:37-44 | With a supported mechanism, a login/password pair and a record that reached the file, the appended record is the record of peer, login text and password text. |
| `EvilSmtp.CaptureExample` | EvilSMTP.py:37-44 | PLAIN with the UTF-8 bytes of `bob` and `hunter2` appends exactly `Peer: <peer>, Username: bob, Password: hunter2` and a newline. |
| `EvilSmtp.FileTextConcat` | EvilSMTP.py:42-43 | The file is opened for appending. So appending records to the log appends their text to the file. |
| `EvilSmtp.HandleData` | EvilSMTP.py:53-55 | The reply is `250 Message accepted for delivery` for every envelope, with the positive completion code 250. The function reads no state, so it cannot touch the credential log. |
| `Utf8.DecodeIgnore` | EvilSMTP.py:39 | `decode('utf-8', errors='ignore')` is total: it never fails, and it returns at most one character per byte. |
| `Utf8.EncodeChar` | EvilSMTP.py:39-40 | The encoding of a character is one well-formed sequence of RFC 3629 whose code point is that character. |
| `Utf8.DecodeEncodeThen` | EvilSMTP.py:39-40 | Decoding the encoding of a text followed by any bytes gives that text followed by the decoding of those bytes. |
| `Utf8.DecodeEncode` | EvilSMTP.py:39-40 | Decoding valid UTF-8 of a text gives back that text. |
| `Utf8.DropsIllFormedLead` | EvilSMTP.py:39-40 | A byte that cannot start a well-formed sequence (0x80..0xC1, 0xF5..0xFF) is dropped, and decoding continues with the next byte. |
| `Utf8.DecodeAscii` | EvilSMTP.py:39-40 | Bytes below 0x80 decode one for one into the characters with those codes. |
| `AsciiCase.Upper` | EvilSMTP.py:28 | Upper-casing keeps the length and maps each character on its own. |
| `AsciiCase.UpperEqualsWord` | EvilSMTP.py:28 | The upper-cased name equals an upper-case word if and only if the name spells that word with each letter in either case. |

## Left out

- `run_smtp_starttls_honeypot` (EvilSMTP.py:57-92) is not modelled. It creates the TLS context, loads the certificate, and runs the library's controller and the asyncio event loop until a keyboard interrupt. All of that is library calls, I/O and concurrency.
- The banner and `print` (EvilSMTP.py:94-134) are output only.
- The `logging` setup and every `logger` call (EvilSMTP.py:9-10, 23, 29, 34, 41, 46, 54) are left out. They are observability side effects with no contract on the outcome.
- The SMTP command state machine, STARTTLS, and the base64 framing of AUTH LOGIN and AUTH PLAIN are done by `aiosmtpd`. Its source is not part of this model. The model starts where the library hands the mechanism and the decoded `LoginPassword` to the callback.
- The `server` and `envelope` arguments of the callback, and `server` and `session` of `handle_DATA`, are unused by the code, so they are not parameters. `session.peer` is an opaque, already-rendered string. How the f-string renders the address tuple is not modelled.
- EvilSmtp.Authenticator.Authenticate: a failed write either leaves the file as it was or adds the whole record. A torn write, where only part of a record reached the file before the exception, is not modelled. Neither are concurrent writers to the same file.
- EvilSmtp.IsSupported: Python's `str.upper` follows full Unicode case mapping, and the model reduces it to ASCII. One consequence: Python upper-cases the dotless `ı` (U+0131) to `I`, so Python accepts such a spelling of LOGIN and the model does not.
- Utf8.DecodeIgnore: this is a model of Python's codec under RFC 3629, not the codec itself.
