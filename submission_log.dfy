/**
  The append-only log `submissions.ndjson`: every accepted submission is
  serialised to one line and appended, followed by a newline; nothing is
  ever rewritten or removed. A refused submission leaves the file alone.

  The serialiser (`JSON.stringify`) is a parameter of the log; the only
  thing assumed of it is that its output holds no newline.
*/
module SubmissionLog {
  import opened Wrappers
  import opened Js
  import opened Handler

  const NEWLINE: CodeUnit := 0x0A

  /** A serialiser whose output is always a single line. */
  ghost predicate SingleLine(stringify: Entry -> JsString)
  {
    forall e :: NEWLINE !in stringify(e)
  }

  /** The newline-delimited text the entries are written as, in order. */
  function Ndjson(stringify: Entry -> JsString, entries: seq<Entry>): JsString
  {
    if entries == [] then []
    else Ndjson(stringify, entries[..|entries| - 1]) + stringify(entries[|entries| - 1]) + [NEWLINE]
  }

  /** Appending an entry appends its line and a newline to the text. */
  lemma NdjsonAppend(stringify: Entry -> JsString, entries: seq<Entry>, e: Entry)
    ensures Ndjson(stringify, entries + [e]) == Ndjson(stringify, entries) + stringify(e) + [NEWLINE]
  {
    assert (entries + [e])[..|entries|] == entries;
  }

  /** The serialised lines, one per entry. */
  function Serialized(stringify: Entry -> JsString, entries: seq<Entry>): (lines: seq<JsString>)
    ensures |lines| == |entries|
  {
    seq(|entries|, i requires 0 <= i < |entries| => stringify(entries[i]))
  }

  /** The text is empty or ends with a newline: every line in it is complete. */
  predicate CompleteLines(text: JsString)
  {
    text == [] || text[|text| - 1] == NEWLINE
  }

  /**
    How a reader of the file splits it into lines: at every newline, with
    a final unterminated fragment counted as a line of its own.
  */
  function Lines(text: JsString): seq<JsString>
    decreases |text|
  {
    if text == [] then []
    else
      var line := SplitFirst(text, NEWLINE);
      if |line| >= |text| then [text] else [line] + Lines(text[|line| + 1..])
  }

  /** A complete line followed by anything reads back as that line, then the rest. */
  lemma LinesOfLine(line: JsString, rest: JsString)
    requires NEWLINE !in line
    ensures Lines(line + [NEWLINE] + rest) == [line] + Lines(rest)
  {
    SplitFirstAt(line, NEWLINE, rest);
    assert (line + [NEWLINE] + rest)[|line| + 1..] == rest;
  }

  /** Lines of complete text followed by more text: the lines of the two parts, one after the other. */
  lemma {:induction false} LinesAppend(a: JsString, b: JsString)
    requires CompleteLines(a)
    ensures Lines(a + b) == Lines(a) + Lines(b)
    decreases |a|
  {
    if a == [] {
      assert a + b == b;
    } else {
      var line, tail := FirstLine(a);
      assert Lines(a + b) == [line] + Lines(tail + b) by {
        assert a + b == line + [NEWLINE] + (tail + b);
        LinesOfLine(line, tail + b);
      }
      assert Lines(a) == [line] + Lines(tail) by {
        LinesOfLine(line, tail);
      }
      LinesAppend(tail, b);
    }
  }

  /** Non-empty complete text is a first line, its newline, and complete text after it. */
  lemma FirstLine(a: JsString) returns (line: JsString, tail: JsString)
    requires CompleteLines(a) && a != []
    ensures NEWLINE !in line && CompleteLines(tail) && |tail| < |a|
    ensures a == line + [NEWLINE] + tail
  {
    line := SplitFirst(a, NEWLINE);
    SplitFirstSpec(a, NEWLINE);
    // a ends with a newline and line holds none, so line stops short of the end of a.
    assert |line| == |a| ==> line == a;
    tail := a[|line| + 1..];
  }

  /** Written text is always made of complete lines. */
  lemma NdjsonComplete(stringify: Entry -> JsString, entries: seq<Entry>)
    ensures CompleteLines(Ndjson(stringify, entries))
  {
  }

  /** Reading the log back gives exactly one line per entry, the entry's serialisation, in order. */
  lemma {:induction false} LinesOfNdjson(stringify: Entry -> JsString, entries: seq<Entry>)
    requires SingleLine(stringify)
    ensures Lines(Ndjson(stringify, entries)) == Serialized(stringify, entries)
  {
    if entries != [] {
      var n := |entries| - 1;
      var front := entries[..n];
      var line := stringify(entries[n]);
      var written := Ndjson(stringify, front);
      assert Ndjson(stringify, entries) == written + (line + [NEWLINE]);
      assert Lines(written + (line + [NEWLINE])) == Lines(written) + [line] by {
        NdjsonComplete(stringify, front);
        LinesAppend(written, line + [NEWLINE]);
        LinesOfLine(line, []);
        assert line + [NEWLINE] + [] == line + [NEWLINE];
      }
      LinesOfNdjson(stringify, front);
      assert Serialized(stringify, entries) == Serialized(stringify, front) + [line];
    }
  }

  /**
    The log file. `initial` is what the file held before this process
    started appending; `text` is its current contents and `entries` the
    submissions appended since, in order.
  */
  class SubmissionsFile {
    const stringify: Entry -> JsString
    const initial: JsString
    var text: JsString
    ghost var entries: seq<Entry>

    ghost predicate Valid()
      reads this
    {
      SingleLine(stringify) &&
      text == initial + Ndjson(stringify, entries) &&
      forall k :: 0 <= k < |entries| ==> WellFormed(entries[k])
    }

    constructor (stringify: Entry -> JsString, existing: JsString)
      requires SingleLine(stringify)
      ensures Valid()
      ensures this.stringify == stringify && initial == existing
      ensures text == existing && entries == []
    {
      this.stringify := stringify;
      initial := existing;
      text := existing;
      entries := [];
    }

    /**
      One `POST /api/submit`: on acceptance, append the entry's line to the
      file and reply `{ok: true}`; on refusal, reply with the validation
      error and leave the file untouched.
    */
    method Submit(req: Request) returns (reply: Reply)
      requires Valid()
      modifies this
      ensures Valid()
      ensures reply == ReplyOf(Handle(req))
      ensures Handle(req).Ok? ==>
                entries == old(entries) + [Handle(req).value] &&
                text == old(text) + stringify(Handle(req).value) + [NEWLINE]
      ensures Handle(req).Err? ==> entries == old(entries) && text == old(text)
    {
      var outcome := Handle(req);
      match outcome {
        case Err(error) =>
          reply := Rejected(error);
        case Ok(entry) =>
          AcceptedEntryWellFormed(req);
          Append(entry);
          reply := Accepted;
      }
    }

    /** `fs.appendFileSync(file, JSON.stringify(entry) + '\n')`: one new line at the end, nothing else touched. */
    method Append(entry: Entry)
      requires Valid() && WellFormed(entry)
      modifies this
      ensures Valid()
      ensures entries == old(entries) + [entry]
      ensures text == old(text) + stringify(entry) + [NEWLINE]
    {
      NdjsonAppend(stringify, entries, entry);
      assert initial + Ndjson(stringify, entries + [entry]) == text + stringify(entry) + [NEWLINE];
      assert forall k :: 0 <= k < |entries + [entry]| ==> WellFormed((entries + [entry])[k]) by {
        forall k | 0 <= k < |entries + [entry]| ensures WellFormed((entries + [entry])[k]) {
          if k < |entries| {
            assert (entries + [entry])[k] == entries[k];
          }
        }
      }
      text := text + stringify(entry) + [NEWLINE];
      entries := entries + [entry];
    }
  }

  /**
    What a reader of the file sees: the lines it held before, then one
    line per accepted submission, in the order they were accepted.
  */
  lemma FileLines(f: SubmissionsFile)
    requires f.Valid() && CompleteLines(f.initial)
    ensures Lines(f.text) == Lines(f.initial) + Serialized(f.stringify, f.entries)
  {
    LinesAppend(f.initial, Ndjson(f.stringify, f.entries));
    LinesOfNdjson(f.stringify, f.entries);
  }

  /** An accepted submission adds exactly one line, its own serialisation, and leaves the earlier lines as they were. */
  lemma AppendAddsOneLine(text: JsString, line: JsString)
    requires CompleteLines(text) && NEWLINE !in line
    ensures Lines(text + line + [NEWLINE]) == Lines(text) + [line]
  {
    LinesAppend(text, line + [NEWLINE]);
    LinesOfLine(line, []);
    assert line + [NEWLINE] + [] == line + [NEWLINE];
    assert text + line + [NEWLINE] == text + (line + [NEWLINE]);
  }
}
