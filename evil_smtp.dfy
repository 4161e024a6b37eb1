/**
 * The honeypot's own logic: the authentication callback that the SMTP
 * library calls on every AUTH attempt, and the DATA handler.
 *
 * The callback accepts only the LOGIN and PLAIN mechanisms (compared after
 * upper-casing), only the library's login/password pair, turns both fields
 * into text, appends one record to the credential log and then, on every path,
 * reports that authentication failed.
 */
module EvilSmtp {
  import opened Utf8
  import opened AsciiCase

  /** A credential field as handed over by the library: raw bytes or already text. */
  datatype Field = Bytes(bytes: seq<Byte>) | Text(text: string)

  /** The auth data of a call: the library's login/password pair, or anything else. */
  datatype AuthData = LoginPassword(login: Field, password: Field) | Other

  /** What the callback returns to the library. */
  datatype AuthResult = AuthResult(success: bool, handled: bool)

  /** The result of every call: not authenticated, but the attempt was handled. */
  const Rejected := AuthResult(false, true)

  const SupportedMechanisms: seq<string> := ["LOGIN", "PLAIN"]

  /** The reply of the DATA handler. */
  const AcceptedReply := "250 Message accepted for delivery"

  /** `mechanism.upper() in ["LOGIN", "PLAIN"]`; both names have five letters. */
  predicate IsSupported(mechanism: string)
    ensures IsSupported(mechanism) ==> |mechanism| == 5
  {
    Upper(mechanism) in SupportedMechanisms
  }

  /**
   * A mechanism is supported exactly when it spells LOGIN or PLAIN, each
   * letter in either case.
   */
  lemma SupportedIff(mechanism: string)
    ensures IsSupported(mechanism) <==>
      SpellsIgnoringCase(mechanism, "LOGIN") || SpellsIgnoringCase(mechanism, "PLAIN")
  {
    UpperEqualsWord(mechanism, "LOGIN");
    UpperEqualsWord(mechanism, "PLAIN");
  }

  lemma SupportedExamples()
    ensures IsSupported("LOGIN") && IsSupported("login") && IsSupported("Plain")
    ensures !IsSupported("CRAM-MD5") && !IsSupported("XOAUTH2") && !IsSupported("LOGIN ")
  {
    assert Upper("LOGIN") == "LOGIN" by { UpperEqualsWord("LOGIN", "LOGIN"); }
    assert Upper("login") == "LOGIN" by { UpperEqualsWord("login", "LOGIN"); }
    assert Upper("Plain") == "PLAIN" by { UpperEqualsWord("Plain", "PLAIN"); }
    assert |Upper("CRAM-MD5")| == 8;
    assert Upper("XOAUTH2")[0] == 'X';
    assert |Upper("LOGIN ")| == 6;
  }

  /**
   * The text of a field: bytes are decoded as UTF-8 with ill-formed bytes
   * dropped, text is taken as it is.
   */
  function FieldText(f: Field): (t: string)
    ensures f.Bytes? ==> |t| <= |f.bytes|
  {
    match f
    case Bytes(b) => DecodeIgnore(b)
    case Text(s) => s
  }

  /** A text field and the bytes field holding its UTF-8 encoding give the same text. */
  lemma FieldTextAgrees(s: string)
    ensures FieldText(Bytes(Encode(s))) == s
    ensures FieldText(Text(s)) == s
  {
    DecodeEncode(s);
  }

  /**
   * The text one captured attempt appends to credentials.log: the peer, the
   * username and the password after fixed labels, ending in a newline.
   */
  function CredentialRecord(peer: string, username: string, password: string): (record: string)
    ensures IsRecordLine(record)
    ensures |record| == 31 + |peer| + |username| + |password|
  {
    "Peer: " + peer + ", Username: " + username + ", Password: " + password + "\n"
  }

  predicate NoNewline(s: string) {
    forall i :: 0 <= i < |s| ==> s[i] != '\n'
  }

  /** The shape of a credential record: it starts with `Peer: ` and ends with a newline. */
  predicate IsRecordLine(record: string) {
    |record| >= 7 && record[..6] == "Peer: " && record[|record| - 1] == '\n'
  }

  /**
   * Each part of a record sits at an offset fixed by the lengths of the parts
   * before it; when no part holds a newline the record is exactly one line.
   */
  lemma RecordLayout(peer: string, username: string, password: string)
    ensures var record := CredentialRecord(peer, username, password);
      && record[6..6 + |peer|] == peer
      && record[18 + |peer|..18 + |peer| + |username|] == username
      && record[30 + |peer| + |username|..|record| - 1] == password
      && (NoNewline(peer) && NoNewline(username) && NoNewline(password) ==>
            forall i :: 0 <= i < |record| - 1 ==> record[i] != '\n')
  {
  }

  /**
   * A record does not determine its fields: a username that itself holds
   * ", Password: " gives the same text as a shorter username with a longer
   * password.
   */
  lemma RecordAmbiguous(peer: string, a: string, b: string, c: string)
    ensures a + ", Password: " + b != a
    ensures CredentialRecord(peer, a + ", Password: " + b, c)
         == CredentialRecord(peer, a, b + ", Password: " + c)
  {
  }

  /**
   * Fields are written without escaping: a username holding a newline
   * followed by `Peer: ` puts a second, forged record-shaped line into
   * credentials.log.
   */
  lemma NewlineForgesRecord(peer: string, user: string, forgedPeer: string, password: string)
    ensures CredentialRecord(peer, user + "\nPeer: " + forgedPeer, password)
         == ("Peer: " + peer + ", Username: " + user + "\n")
          + ("Peer: " + forgedPeer + ", Password: " + password + "\n")
    ensures IsRecordLine("Peer: " + forgedPeer + ", Password: " + password + "\n")
  {
  }

  /**
   * How the `with open("credentials.log", "a")` block ended: the record was
   * written and the file closed; an exception came before anything reached
   * the file (opening or writing failed); or an exception came after the
   * record reached the file (closing failed).
   */
  datatype WriteOutcome = Written | FailedBeforeWrite | FailedAfterWrite {
    predicate Reached() { !FailedBeforeWrite? }
  }

  /**
   * The records one call appends to credentials.log: the record of the two
   * field texts when the mechanism is supported, the data is a login/password
   * pair and the record reached the file, and none otherwise.
   */
  function Appended(peer: string, mechanism: string, data: AuthData, outcome: WriteOutcome): (w: seq<string>)
    ensures |w| <= 1
    ensures |w| == 1 <==> IsSupported(mechanism) && data.LoginPassword? && outcome.Reached()
    ensures forall i :: 0 <= i < |w| ==> IsRecordLine(w[i])
  {
    if !IsSupported(mechanism) then []
    else if !data.LoginPassword? then []
    else if outcome.Reached() then [CredentialRecord(peer, FieldText(data.login), FieldText(data.password))]
    else []
  }

  /** An unsupported mechanism writes nothing, whatever the auth data and the write outcome. */
  lemma UnsupportedIgnoresData(peer: string, mechanism: string, d1: AuthData, d2: AuthData,
                               o1: WriteOutcome, o2: WriteOutcome)
    requires !IsSupported(mechanism)
    ensures Appended(peer, mechanism, d1, o1) == Appended(peer, mechanism, d2, o2) == []
  {
  }

  /** A captured attempt whose record reached the file appends the record of its two fields. */
  lemma CaptureWritesRecord(peer: string, mechanism: string, login: Field, password: Field, outcome: WriteOutcome)
    requires IsSupported(mechanism) && outcome.Reached()
    ensures Appended(peer, mechanism, LoginPassword(login, password), outcome)
         == [CredentialRecord(peer, FieldText(login), FieldText(password))]
  {
  }

  lemma ExampleRecordText(peer: string)
    ensures CredentialRecord(peer, "bob", "hunter2")
         == "Peer: " + peer + ", Username: bob, Password: hunter2\n"
  {
    var head := "Peer: " + peer;
    assert ", Username: " + "bob" + ", Password: " + "hunter2" + "\n"
        == ", Username: bob, Password: hunter2\n";
    assert CredentialRecord(peer, "bob", "hunter2")
        == head + (", Username: " + "bob" + ", Password: " + "hunter2" + "\n");
  }

  /**
   * The worked example: PLAIN with UTF-8 bytes "bob" and "hunter2" from
   * peer P leaves exactly the record for P, bob and hunter2.
   */
  lemma CaptureExample(peer: string)
    ensures Appended(peer, "PLAIN", LoginPassword(Bytes(Encode("bob")), Bytes(Encode("hunter2"))), Written)
         == ["Peer: " + peer + ", Username: bob, Password: hunter2\n"]
  {
    assert IsSupported("PLAIN") by { UpperEqualsWord("PLAIN", "PLAIN"); }
    FieldTextAgrees("bob");
    FieldTextAgrees("hunter2");
    CaptureWritesRecord(peer, "PLAIN", Bytes(Encode("bob")), Bytes(Encode("hunter2")), Written);
    ExampleRecordText(peer);
  }

  /** The text of credentials.log: its records, one after another. */
  function FileText(records: seq<string>): string
  {
    if records == [] then [] else records[0] + FileText(records[1..])
  }

  /** Appending records appends their text to the file. */
  lemma {:induction false} FileTextConcat(a: seq<string>, b: seq<string>)
    ensures FileText(a + b) == FileText(a) + FileText(b)
    decreases |a|
  {
    if a == [] {
      assert a + b == b;
    } else {
      assert (a + b)[0] == a[0];
      assert (a + b)[1..] == a[1..] + b;
      FileTextConcat(a[1..], b);
    }
  }

  /**
   * The authenticator. `log` holds the records appended to credentials.log,
   * in order; the file's text is `FileText(log)`. The file is only ever
   * opened for appending.
   */
  class Authenticator {
    var log: seq<string>

    /** Every appended record has the record shape (a file with other content need not). */
    ghost predicate AllRecords()
      reads this
    {
      forall i :: 0 <= i < |log| ==> IsRecordLine(log[i])
    }

    /** An authenticator over a credential log that already holds `existing`. */
    constructor (existing: seq<string>)
      ensures log == existing
    {
      log := existing;
    }

    /**
     * One AUTH attempt from `peer`. `outcome` stands for how opening,
     * writing and closing credentials.log went; any exception there is
     * caught and the attempt is still reported as failed.
     */
    method Authenticate(peer: string, mechanism: string, data: AuthData, outcome: WriteOutcome)
      returns (r: AuthResult)
      modifies this
      ensures r == Rejected
      ensures log == old(log) + Appended(peer, mechanism, data, outcome)
      ensures !IsSupported(mechanism) ==> log == old(log)
      ensures IsSupported(mechanism) && !data.LoginPassword? ==> log == old(log)
      ensures IsSupported(mechanism) && data.LoginPassword? ==>
        log == old(log) + (if outcome.Reached() then
          [CredentialRecord(peer, FieldText(data.login), FieldText(data.password))] else [])
      ensures data.LoginPassword? ==>
        || log == old(log)
        || log == old(log) + [CredentialRecord(peer, FieldText(data.login), FieldText(data.password))]
      ensures FileText(log) == FileText(old(log)) + FileText(Appended(peer, mechanism, data, outcome))
      ensures old(log) <= log
      ensures old(AllRecords()) ==> AllRecords()
    {
      FileTextConcat(log, Appended(peer, mechanism, data, outcome));
      if !IsSupported(mechanism) {
        return Rejected;
      }
      if !data.LoginPassword? {
        return Rejected;
      }
      var username := FieldText(data.login);
      var password := FieldText(data.password);
      if outcome.Reached() {
        log := log + [CredentialRecord(peer, username, password)];
      }
      r := Rejected;
    }
  }

  /**
   * The DATA handler: whatever the sender, the session and the message,
   * the reply is the fixed positive completion reply. It reads no state.
   */
  function HandleData(mailFrom: string): (reply: string)
    ensures reply == AcceptedReply
    ensures |reply| >= 4 && reply[..4] == "250 "
  {
    AcceptedReply
  }
}
