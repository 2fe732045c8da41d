/** The parsing loop of `load_document`: file contents to a map from article
    id to article text. Opening and decoding the file is not modelled; the
    contents arrive as a string. */
module Dataset {
  import opened Results
  import Text
  import Decimal

  /** Why a line was rejected, with the zero-based index of that line among the
      `"\n"`-separated lines. Python raises `ValueError` in both cases. */
  datatype LoadError =
    | MissingText(line: nat) // `article_id, article = line.split(maxsplit=1)` finds one value or none
    | BadId(line: nat)       // `int(article_id)` rejects the first field

  /** One iteration of the loop: `None` for an empty line, else the id and the
      stripped article text, or the error the line raises. */
  function ParseLine(line: string, lineNo: nat): (r: Result<Option<(int, string)>, LoadError>)
    ensures r.Failure? ==> r.error.line == lineNo
  {
    if |line| == 0 then Success(None)
    else
      var fields := Text.SplitOnce(line);
      if |fields| < 2 then Failure(MissingText(lineNo))
      else
        match Decimal.ParseInt(fields[0])
        case None => Failure(BadId(lineNo))
        case Some(id) => Success(Some((id, Text.Strip(fields[1]))))
  }

  /** What one line yields, in terms of its whitespace-separated tokens: an
      empty line is skipped; a non-empty line with fewer than two tokens (a
      blank line among them) cannot be unpacked; otherwise the first token
      must be an integer, which becomes the id, and the text is the stripped
      remainder, holding exactly the other tokens. */
  lemma ParseLineMeaning(line: string, lineNo: nat)
    ensures ParseLine(line, lineNo) == Success(None) <==> line == []
    ensures ParseLine(line, lineNo) == Failure(MissingText(lineNo)) <==>
              line != [] && |Text.Split(line)| < 2
    ensures ParseLine(line, lineNo) == Failure(BadId(lineNo)) <==>
              |Text.Split(line)| >= 2 && Decimal.ParseInt(Text.Split(line)[0]).None?
    ensures ParseLine(line, lineNo).Success? && ParseLine(line, lineNo).value.Some? ==>
              var entry := ParseLine(line, lineNo).value.value;
              && |Text.Split(line)| >= 2
              && Decimal.ParseInt(Text.Split(line)[0]) == Some(entry.0)
              && Text.Split(entry.1) == Text.Split(line)[1..]
              && Text.Strip(entry.1) == entry.1
  {
    Text.SplitOnceAgreesWithSplit(line);
    var fields := Text.SplitOnce(line);
    if |fields| == 2 {
      Text.StripKeepsTokens(fields[1]);
      Text.StripIsIdempotent(fields[1]);
    }
  }

  /** The stored text is the line from its second token onwards, stripped:
      the part of the line before position `i` holds one token, the id's. */
  lemma ParseLineText(line: string, lineNo: nat)
    ensures ParseLine(line, lineNo).Success? && ParseLine(line, lineNo).value.Some? ==>
              exists i :: 0 < i < |line|
                && |Text.Split(line[..i])| == 1
                && Text.Split(line[..i]) + Text.Split(line[i..]) == Text.Split(line)
                && !Text.IsWhitespace(line[i])
                && ParseLine(line, lineNo).value.value.1 == Text.Strip(line[i..])
  {
    if ParseLine(line, lineNo).Success? && ParseLine(line, lineNo).value.Some? {
      ParseLineFields(line, lineNo);
      var fields := Text.SplitOnce(line);
      Text.SplitOnceAgreesWithSplit(line);
      Text.SplitOnceRemainderIsSuffix(line);
      var i := |line| - |fields[1]|;
      assert line[i..] == fields[1] && line[i] == fields[1][0];
    }
  }

  lemma ParseLineFields(line: string, lineNo: nat)
    ensures ParseLine(line, lineNo).Success? && ParseLine(line, lineNo).value.Some? ==>
              && |Text.SplitOnce(line)| == 2
              && ParseLine(line, lineNo).value.value.1 == Text.Strip(Text.SplitOnce(line)[1])
  {
    if |line| > 0 && |Text.SplitOnce(line)| >= 2 {
      var fields := Text.SplitOnce(line);
      assert ParseLine(line, lineNo).Success? ==>
               ParseLine(line, lineNo) == Success(Some((Decimal.ParseInt(fields[0]).value, Text.Strip(fields[1]))));
    }
  }

  /** A line's outcome: the record it stores, nothing, or the error it raises. */
  type LineOutcome = Result<Option<(int, string)>, LoadError>

  /** The loop body's outcome for every line, in order. */
  function ParseLines(lines: seq<string>): (r: seq<LineOutcome>)
    ensures |r| == |lines|
    ensures forall k :: 0 <= k < |lines| ==> r[k] == ParseLine(lines[k], k)
  {
    seq(|lines|, k requires 0 <= k < |lines| => ParseLine(lines[k], k))
  }

  /** The loop's accumulation of line outcomes: the first failure aborts the
      load; otherwise each record stores its text under its id, a later record
      overwriting an earlier one with the same id. */
  function Collect(outcomes: seq<LineOutcome>): (r: Result<map<int, string>, LoadError>)
    ensures r.Failure? ==> exists k :: 0 <= k < |outcomes| && outcomes[k] == Failure(r.error)
    decreases |outcomes|
  {
    if |outcomes| == 0 then Success(map[])
    else
      match Collect(outcomes[..|outcomes| - 1])
      case Failure(e) => Failure(e)
      case Success(m) =>
        match outcomes[|outcomes| - 1]
        case Failure(e) => Failure(e)
        case Success(None) => Success(m)
        case Success(Some(entry)) => Success(m[entry.0 := entry.1])
  }

  /** The loop over the lines of the file. */
  function LoadLines(lines: seq<string>): (r: Result<map<int, string>, LoadError>)
    ensures r.Failure? ==> r.error.line < |lines| && ParseLine(lines[r.error.line], r.error.line) == Failure(r.error)
  {
    Collect(ParseLines(lines))
  }

  /** `load_document` on the file's decoded characters: `read()` in text mode
      turns every line ending into `"\n"` before the split. */
  function LoadDocument(contents: string): Result<map<int, string>, LoadError>
  {
    LoadLines(Text.SplitOn(Text.TranslateNewlines(contents), '\n'))
  }

  /** Outcome `k` is a record for article `id`. */
  ghost predicate Records(outcomes: seq<LineOutcome>, k: int, id: int) {
    0 <= k < |outcomes| && outcomes[k].Success? && outcomes[k].value.Some? && outcomes[k].value.value.0 == id
  }

  /** Outcome `k` is the last record for article `id`. */
  ghost predicate RecordsLast(outcomes: seq<LineOutcome>, k: int, id: int) {
    Records(outcomes, k, id) && forall k' :: k < k' < |outcomes| ==> !Records(outcomes, k', id)
  }

  /** The accumulation fails exactly when some outcome is a failure, and then
      it reports the first one. */
  lemma {:induction false} CollectFailsAtFirst(outcomes: seq<LineOutcome>)
    ensures Collect(outcomes).Success? <==> forall k :: 0 <= k < |outcomes| ==> outcomes[k].Success?
    ensures Collect(outcomes).Failure? ==>
              exists k :: && 0 <= k < |outcomes|
                          && outcomes[k] == Failure(Collect(outcomes).error)
                          && forall j :: 0 <= j < k ==> outcomes[j].Success?
    decreases |outcomes|
  {
    if |outcomes| > 0 {
      var n := |outcomes| - 1;
      var p := outcomes[..n];
      CollectFailsAtFirst(p);
      assert forall k :: 0 <= k < n ==> p[k] == outcomes[k];
      if Collect(p).Failure? {
        var k :| 0 <= k < n && p[k] == Failure(Collect(p).error) && forall j :: 0 <= j < k ==> p[j].Success?;
        assert outcomes[k].Failure?;
      } else if outcomes[n].Failure? {
        assert forall j :: 0 <= j < n ==> outcomes[j].Success?;
      }
    }
  }

  /** A successful accumulation holds exactly the ids some outcome records,
      each mapped to the text of the last record for it. */
  lemma {:induction false} CollectKeepsLast(outcomes: seq<LineOutcome>)
    requires Collect(outcomes).Success?
    ensures forall id :: id in Collect(outcomes).value <==> exists k :: Records(outcomes, k, id)
    ensures forall k, id :: RecordsLast(outcomes, k, id) ==>
              Collect(outcomes).value[id] == outcomes[k].value.value.1
    decreases |outcomes|
  {
    if |outcomes| > 0 {
      var n := |outcomes| - 1;
      var p := outcomes[..n];
      CollectKeepsLast(p);
      assert forall k :: 0 <= k < n ==> p[k] == outcomes[k];
      var m := Collect(p).value;
      var r := Collect(outcomes).value;
      forall id
        ensures id in r <==> exists k :: Records(outcomes, k, id)
      {
        if id in r {
          if id in m {
            var k :| Records(p, k, id);
            assert Records(outcomes, k, id);
          } else {
            assert Records(outcomes, n, id);
          }
        }
        if exists k :: Records(outcomes, k, id) {
          var k :| Records(outcomes, k, id);
          if k < n {
            assert Records(p, k, id);
          }
        }
      }
      forall k, id | RecordsLast(outcomes, k, id)
        ensures r[id] == outcomes[k].value.value.1
      {
        if k < n {
          assert !Records(outcomes, n, id);
          forall k' | k < k' < n
            ensures !Records(p, k', id)
          {
            assert !Records(outcomes, k', id);
          }
          assert RecordsLast(p, k, id);
        }
      }
    }
  }

  /** The load fails exactly when some line fails, and then it reports the
      first failing line, by its index. */
  lemma LoadFailsAtFirstBadLine(lines: seq<string>)
    ensures LoadLines(lines).Success? <==>
              forall k :: 0 <= k < |lines| ==> ParseLine(lines[k], k).Success?
    ensures LoadLines(lines).Failure? ==>
              var e := LoadLines(lines).error;
              && 0 <= e.line < |lines|
              && ParseLine(lines[e.line], e.line) == Failure(e)
              && forall k :: 0 <= k < e.line ==> ParseLine(lines[k], k).Success?
  {
    CollectFailsAtFirst(ParseLines(lines));
  }

  /** A successful load holds exactly the ids that some line records, each
      mapped to the text of the last line that records it. */
  lemma LoadKeepsLastRecord(lines: seq<string>)
    requires LoadLines(lines).Success?
    ensures forall id :: id in LoadLines(lines).value <==> exists k :: Records(ParseLines(lines), k, id)
    ensures forall k, id :: RecordsLast(ParseLines(lines), k, id) ==>
              LoadLines(lines).value[id] == ParseLine(lines[k], k).value.value.1
  {
    CollectKeepsLast(ParseLines(lines));
  }

  /** An empty line is skipped: appending one changes nothing. */
  lemma EmptyLineSkipped(lines: seq<string>)
    ensures LoadLines(lines + [""]) == LoadLines(lines)
  {
    var o := ParseLines(lines + [""]);
    assert o[..|lines|] == ParseLines(lines);
  }

  /** A file whose line breaks are any mix of `"\n"`, `"\r\n"` and `"\r"`
      loads as its lines. */
  lemma LoadDocumentByLines(lines: seq<string>, eols: seq<string>)
    requires Text.WellEnded(lines, eols)
    ensures LoadDocument(Text.JoinLines(lines, eols)) == LoadLines(lines)
  {
    Text.TranslateJoin(lines, eols);
    Text.SplitOnJoin(lines, '\n');
  }

  lemma FormatHasNoWhitespace(id: int)
    ensures Decimal.FormatInt(id) != [] && Text.NoWhitespace(Decimal.FormatInt(id))
  {
    var s := Decimal.FormatInt(id);
    if id < 0 {
      assert s == "-" + Decimal.FormatNat(-id);
      assert forall i :: 1 <= i < |s| ==> s[i] == Decimal.FormatNat(-id)[i - 1];
    }
  }

  /** A record written as the id, a space and a stripped non-empty text reads
      back as that id and that text. */
  lemma ParseFormattedLine(id: int, text: string, lineNo: nat)
    requires text != [] && Text.Strip(text) == text
    ensures ParseLine(Decimal.FormatInt(id) + " " + text, lineNo) == Success(Some((id, text)))
  {
    var f := Decimal.FormatInt(id);
    FormatHasNoWhitespace(id);
    Decimal.ParseFormat(id);
    Text.SplitOnceWordSpace(f, text);
  }
}
