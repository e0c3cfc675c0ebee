/**
  Concrete requests and what the handler does with them: a typical
  accepted request, one refusal per check, and the edge cases that follow from JavaScript's own rules
  (truthiness, UTF-16 lengths, trimming, the first forwarded hop).
*/
module Scenarios {
  import opened Wrappers
  import opened Js
  import opened Handler
  import opened SubmissionLog

  /** A JSON body with the three form fields. */
  function Form(name: JsValue, email: JsValue, consent: JsValue): JsValue
  {
    Obj(map[NAME_KEY := name, EMAIL_KEY := email, CONSENT_KEY := consent])
  }

  const LOCALHOST: JsString := [0x31, 0x32, 0x37, 0x2E, 0x30, 0x2E, 0x30, 0x2E, 0x31]  // "127.0.0.1"

  /** A request arriving straight from 127.0.0.1 with no forwarding or user-agent header. */
  function Direct(body: JsValue): Request
  {
    Request(body, None, None, Some(LOCALHOST))
  }

  /** The handler reads back the three fields of a form body. */
  lemma FormFields(name: JsValue, email: JsValue, consent: JsValue)
    ensures NameOf(Direct(Form(name, email, consent))) == name
    ensures EmailOf(Direct(Form(name, email, consent))) == email
    ensures ConsentOf(Direct(Form(name, email, consent))) == consent
  {
  }

  // The strings of each scenario are parameters fixed by its requires
  // clause, so that the verifier reasons about them rather than evaluating
  // every function on them.

  /** `{name: "Al", email: "a@b.com", consent: true}` from 127.0.0.1 is accepted and stored as sent, with a null user agent. */
  lemma AcceptedExample(name: JsString, email: JsString)
    requires name == [0x41, 0x6C]  // "Al"
          && email == [0x61, 0x40, 0x62, 0x2E, 0x63, 0x6F, 0x6D]  // "a@b.com"
    ensures Handle(Direct(Form(Str(name), Str(email), Bool(true)))) ==
            Ok(Entry(name, email, true, Meta(Some(LOCALHOST), None)))
  {
    assert AT in email by { assert email[1] == AT; }
    assert Trimmed(name) && Trimmed(email) by {
      assert name[0] == 0x41 && name[1] == 0x6C;
      assert email[0] == 0x61 && email[6] == 0x6D;
    }
    FormFields(Str(name), Str(email), Bool(true));
    CleanSubmissionStoredVerbatim(Direct(Form(Str(name), Str(email), Bool(true))), name, email);
  }

  /** A one-letter name is refused with "Bad name". */
  lemma ShortNameRefused(name: JsString, email: JsString)
    requires name == [0x41]  // "A"
          && email == [0x61, 0x40, 0x62, 0x2E, 0x63, 0x6F, 0x6D]  // "a@b.com"
    ensures Handle(Direct(Form(Str(name), Str(email), Bool(true)))) == Err(BAD_NAME)
  {
    assert !NameOk(Str(name)) by {
      assert Trimmed(name) by { assert name[0] == 0x41; }
      UnpaddedNameCheck(name);
    }
    FormFields(Str(name), Str(email), Bool(true));
    HandleFollowsValidation(Direct(Form(Str(name), Str(email), Bool(true))));
  }


  /** An email without '@' is refused with "Bad email". */
  lemma EmailWithoutAtRefused(name: JsString, email: JsString)
    requires name == [0x41, 0x6C]  // "Al"
          && email == [0x6E, 0x6F, 0x70, 0x65]  // "nope"
    ensures Handle(Direct(Form(Str(name), Str(email), Bool(true)))) == Err(BAD_EMAIL)
  {
    assert !EmailOk(Str(email)) by {
      assert forall k | 0 <= k < |email| :: email[k] != AT;
    }
    assert NameOk(Str(name)) by {
      assert Trimmed(name) by { assert name[0] == 0x41 && name[1] == 0x6C; }
      UnpaddedNameCheck(name);
    }
    assert Validate(Bool(true), Str(name), Str(email)) == Some(BAD_EMAIL) by {
      ValidationOrder(Bool(true), Str(name), Str(email));
    }
    FormFields(Str(name), Str(email), Bool(true));
    HandleFollowsValidation(Direct(Form(Str(name), Str(email), Bool(true))));
  }


  /** `consent: false` is refused with "consent required", whatever the other fields hold. */
  lemma ConsentFalseRefused(name: JsString, email: JsString)
    requires name == [0x41, 0x6C]  // "Al"
          && email == [0x61, 0x40, 0x62, 0x2E, 0x63, 0x6F, 0x6D]  // "a@b.com"
    ensures Handle(Direct(Form(Str(name), Str(email), Bool(false)))) == Err(CONSENT_REQUIRED)
  {
    FormFields(Str(name), Str(email), Bool(false));
  }

  /** Consent is tested for truthiness, not for `true`: the string "false" and an empty array pass, the number 0 does not. */
  lemma ConsentIsTruthiness(consent: JsString, name: JsString, email: JsString)
    requires consent == [0x66, 0x61, 0x6C, 0x73, 0x65]  // "false"
          && name == [0x41, 0x6C]  // "Al"
          && email == [0x61, 0x40, 0x62, 0x2E, 0x63, 0x6F, 0x6D]  // "a@b.com"
    ensures Validate(Str(consent), Str(name), Str(email)) == None
    ensures Validate(Arr([]), Str(name), Str(email)) == None
    ensures Validate(Num(0.0), Str(name), Str(email)) == Some(CONSENT_REQUIRED)
  {
    assert NameOk(Str(name)) by {
      assert Trimmed(name) by { assert name[0] == 0x41 && name[1] == 0x6C; }
      UnpaddedNameCheck(name);
    }
    assert EmailOk(Str(email)) by { assert email[1] == AT; }
  }


  /** A name that is a single character outside the Basic Multilingual Plane is two UTF-16 code units long, so it passes. */
  lemma AstralCharacterNameAccepted(name: JsString)
    requires name == [0xD83D, 0xDE00]  // U+1F600 as a surrogate pair
    ensures NameOk(Str(name))
  {
    assert Trimmed(name) by { assert name[0] == 0xD83D && name[1] == 0xDE00; }
    UnpaddedNameCheck(name);
  }


  /** Padding does not count towards the name's length. */
  lemma PaddedShortNameRefused(name: JsString)
    requires name == [0x20, 0x20, 0x41, 0x20, 0x20]  // "  A  "
    ensures !NameOk(Str(name))
  {
    var pad: JsString := [0x20, 0x20];
    assert name == pad + [0x41] + pad;
    TrimPadded(pad, [0x41], pad);
  }

  /** Padding is cut from the stored email. */
  lemma PaddedEmailTrimmed(email: JsString)
    requires email == [0x20, 0x61, 0x40, 0x62, 0x20]  // " a@b "
    ensures EmailOk(Str(email))
    ensures Trim(email) == [0x61, 0x40, 0x62]  // "a@b"
  {
    var stored: JsString := [0x61, 0x40, 0x62];
    assert email == [0x20] + stored + [0x20];
    TrimPadded([0x20], stored, [0x20]);
    assert email[2] == AT;
  }

  /** Behind a proxy chain, the first forwarded hop is recorded without its padding. */
  lemma FirstForwardedHopRecorded(hop: JsString, rest: JsString, remote: JsString)
    requires hop == [0x20, 0x32, 0x30, 0x33, 0x2E, 0x30, 0x2E, 0x31, 0x31, 0x33, 0x2E, 0x37, 0x20]  // " 203.0.113.7 "
          && rest == [0x20, 0x31, 0x30, 0x2E, 0x30, 0x2E, 0x30, 0x2E, 0x31]  // " 10.0.0.1"
          && remote == [0x31, 0x30, 0x2E, 0x30, 0x2E, 0x30, 0x2E, 0x32]  // "10.0.0.2"
    ensures ResolveIp(Some(hop + [COMMA] + rest), Some(remote)) ==
            Some([0x32, 0x30, 0x33, 0x2E, 0x30, 0x2E, 0x31, 0x31, 0x33, 0x2E, 0x37])  // "203.0.113.7"
  {
    var ip: JsString := [0x32, 0x30, 0x33, 0x2E, 0x30, 0x2E, 0x31, 0x31, 0x33, 0x2E, 0x37];
    assert SplitFirst(hop + [COMMA] + rest, COMMA) == hop by {
      assert COMMA !in hop by { assert forall k :: 0 <= k < |hop| ==> hop[k] != COMMA; }
      SplitFirstAt(hop, COMMA, rest);
    }
    assert Trim(hop) == ip by {
      assert hop == [0x20] + ip + [0x20];
      TrimPadded([0x20], ip, [0x20]);
    }
  }

  /** A blank first hop falls back to the socket address. */
  lemma BlankForwardedHopIgnored(rest: JsString, remote: JsString)
    requires rest == [0x20, 0x31, 0x30, 0x2E, 0x30, 0x2E, 0x30, 0x2E, 0x31]  // " 10.0.0.1"
          && remote == [0x31, 0x30, 0x2E, 0x30, 0x2E, 0x30, 0x2E, 0x32]  // "10.0.0.2"
    ensures ResolveIp(Some([0x20, COMMA] + rest), Some(remote)) == Some(remote)  // " , 10.0.0.1"
  {
    var blank: JsString := [0x20];
    assert blank + [COMMA] + rest == [0x20, COMMA] + rest;
    SplitFirstAt(blank, COMMA, rest);
    assert WhiteSpaceBetween(blank, 0, 1);
    BlankFirstHopFallsBack(blank + [COMMA] + rest, Some(remote));
  }

  /**
    A session on a fresh log: an accepted submission followed by a refused
    one replies `{ok: true}` then the error, and leaves exactly one line,
    the accepted entry's.
  */
  method AcceptedThenRefused(stringify: Entry -> JsString, good: Request, bad: Request)
    returns (replies: seq<Reply>, lines: seq<JsString>)
    requires SingleLine(stringify) && Handle(good).Ok? && Handle(bad).Err?
    ensures replies == [Accepted, Rejected(Handle(bad).error)]
    ensures lines == [stringify(Handle(good).value)]
  {
    var log := new SubmissionsFile(stringify, []);
    var first := log.Submit(good);
    var second := log.Submit(bad);
    replies := [first, second];
    FileLines(log);
    lines := Lines(log.text);
  }
}
