/** The `multipart/mixed` message that `createMessage` assembles line by line
    (section 5.1.1 of RFC 2046 for the boundary delimiters, section 5.1.3 for
    multipart/mixed), and the extension table of `getMimeType`. */
module Mime {
  import opened Wrappers

  const PdfType: string := "application/pdf"
  const DocType: string := "application/msword"
  /** The Office Open XML type, spelled in three pieces that each fit a proof
      about their characters; the value is the one string of the table. */
  const DocxType: string := DocxHead + DocxMiddle + ".document"
  const DocxHead: string := "application/vnd.openxmlformats-"
  const DocxMiddle: string := "officedocument.wordprocessingml"
  const DefaultType: string := "application/octet-stream"

  /** The lookup object of `getMimeType`, keyed by lower-case extension. */
  const MediaTypes: map<string, string> := map[".pdf" := PdfType, ".doc" := DocType, ".docx" := DocxType]

  function LowerChar(c: char): char {
    if 'A' <= c <= 'Z' then (c as int + 32) as char else c
  }

  /** `String.prototype.toLowerCase` on the ASCII letters: no upper-case ASCII
      letter survives, each one becomes the letter 32 code points above it, and
      every other character is kept. */
  function Lower(s: string): (r: string)
    ensures |r| == |s|
    ensures forall i :: 0 <= i < |r| ==> !('A' <= r[i] <= 'Z')
    ensures forall i :: 0 <= i < |s| && 'A' <= s[i] <= 'Z' ==> r[i] as int == s[i] as int + 32
    ensures forall i :: 0 <= i < |s| && !('A' <= s[i] <= 'Z') ==> r[i] == s[i]
  {
    seq(|s|, i requires 0 <= i < |s| => LowerChar(s[i]))
  }

  /** `getMimeType`, given the extension `path.extname` returned: the table entry
      of the lower-cased extension, else the generic octet-stream type. */
  function MediaType(ext: string): (r: string)
    ensures r == PdfType <==> Lower(ext) == ".pdf"
    ensures r == DocType <==> Lower(ext) == ".doc"
    ensures r == DocxType <==> Lower(ext) == ".docx"
    ensures r == DefaultType <==> Lower(ext) !in {".pdf", ".doc", ".docx"}
  {
    var e := Lower(ext);
    if e in MediaTypes then MediaTypes[e] else DefaultType
  }

  /** Extensions that differ only in letter case get the same media type. */
  lemma MediaTypeIgnoresCase(a: string, b: string)
    requires |a| == |b|
    requires forall i :: 0 <= i < |a| ==> LowerChar(a[i]) == LowerChar(b[i])
    ensures MediaType(a) == MediaType(b)
  {
    forall i | 0 <= i < |a|
      ensures Lower(a)[i] == Lower(b)[i]
    {
      assert Lower(a)[i] == LowerChar(a[i]) && Lower(b)[i] == LowerChar(b[i]);
    }
    assert Lower(a) == Lower(b);
  }

  /** `.PDF` and `.pdf` agree; no extension at all falls back to octet-stream. */
  lemma MediaTypeExamples()
    ensures MediaType(".PDF") == MediaType(".pdf") == PdfType
    ensures MediaType(".DocX") == DocxType
    ensures MediaType("") == DefaultType
    ensures MediaType(".txt") == DefaultType
  {
    assert Lower(".PDF") == ".pdf";
    assert Lower(".DocX") == ".docx";
    assert Lower(".txt") == ".txt";
  }

  /** The attachment part: media type, file name and base64 payload text. */
  datatype Attachment = Attachment(mediaType: string, fileName: string, payload: string)

  /** One composed message before it is joined and encoded. */
  datatype Message = Message(to: string, subject: string, boundary: string, body: string, attachment: Option<Attachment>)

  function Delimiter(boundary: string): string {
    "--" + boundary
  }

  function CloseDelimiter(boundary: string): string {
    "--" + boundary + "--"
  }

  /** The top-level header block, ended by the empty line. */
  function Headers(to: string, subject: string, boundary: string): seq<string> {
    [ "To: " + to,
      "Subject: " + subject,
      "MIME-Version: 1.0",
      "Content-Type: multipart/mixed; boundary=\"" + boundary + "\"",
      "" ]
  }

  /** The HTML part: the body is carried verbatim, without escaping. */
  function HtmlPart(boundary: string, body: string): seq<string> {
    [ Delimiter(boundary),
      "Content-Type: text/html; charset=UTF-8",
      "",
      body,
      "" ]
  }

  /** The attachment part; the file name appears in both `name=` and `filename=`. */
  function AttachmentPart(boundary: string, a: Attachment): seq<string> {
    [ Delimiter(boundary),
      "Content-Type: " + a.mediaType + "; name=\"" + a.fileName + "\"",
      "Content-Transfer-Encoding: base64",
      "Content-Disposition: attachment; filename=\"" + a.fileName + "\"",
      "",
      a.payload,
      "" ]
  }

  /** The `message` array of `createMessage` after the closing delimiter is pushed. */
  function Lines(m: Message): (r: seq<string>)
    ensures |r| == if m.attachment.Some? then 18 else 11
    ensures r[|r| - 1] == CloseDelimiter(m.boundary)
  {
    Headers(m.to, m.subject, m.boundary)
      + HtmlPart(m.boundary, m.body)
      + (if m.attachment.Some? then AttachmentPart(m.boundary, m.attachment.value) else [])
      + [CloseDelimiter(m.boundary)]
  }

  /** Changing the recipient changes the first line only. */
  lemma LinesOtherRecipient(m: Message, to: string)
    ensures |Lines(m.(to := to))| == |Lines(m)|
    ensures Lines(m)[0] == "To: " + m.to && Lines(m.(to := to))[0] == "To: " + to
    ensures Lines(m.(to := to))[1..] == Lines(m)[1..]
  {
    var rest := HtmlPart(m.boundary, m.body)
      + (if m.attachment.Some? then AttachmentPart(m.boundary, m.attachment.value) else [])
      + [CloseDelimiter(m.boundary)];
    assert Lines(m) == Headers(m.to, m.subject, m.boundary) + rest;
    assert Lines(m.(to := to)) == Headers(to, m.subject, m.boundary) + rest;
    assert Headers(to, m.subject, m.boundary)[1..] == Headers(m.to, m.subject, m.boundary)[1..];
  }

  function StripPrefix(prefix: string, s: string): (r: Option<string>)
    ensures r.Some? ==> s == prefix + r.value
  {
    if prefix <= s then Some(s[|prefix|..]) else None
  }

  function StripSuffix(s: string, suffix: string): (r: Option<string>)
    ensures r.Some? ==> s == r.value + suffix
  {
    if |suffix| <= |s| && s[|s| - |suffix|..] == suffix then Some(s[..|s| - |suffix|]) else None
  }

  lemma StripPrefixConcat(prefix: string, x: string)
    ensures StripPrefix(prefix, prefix + x) == Some(x)
  {
    assert prefix <= prefix + x;
  }

  lemma StripSuffixConcat(x: string, suffix: string)
    ensures StripSuffix(x + suffix, suffix) == Some(x)
  {
    assert (x + suffix)[|x|..] == suffix;
  }

  /** Reads the header block and the HTML part back, checking them against their renderings. */
  function ParseHead(lines: seq<string>): (r: Option<(string, string, string, string)>)
    requires |lines| == 10
    ensures r.Some? ==> lines == Headers(r.value.0, r.value.1, r.value.2) + HtmlPart(r.value.2, r.value.3)
  {
    var to :- StripPrefix("To: ", lines[0]);
    var subject :- StripPrefix("Subject: ", lines[1]);
    var quoted :- StripPrefix("Content-Type: multipart/mixed; boundary=\"", lines[3]);
    var boundary :- StripSuffix(quoted, "\"");
    var body := lines[8];
    if lines != Headers(to, subject, boundary) + HtmlPart(boundary, body) then None
    else Some((to, subject, boundary, body))
  }

  /** Reads an attachment part back, checking it against its rendering. */
  function ParseAttachment(part: seq<string>, boundary: string): (r: Option<Attachment>)
    requires |part| == 7
    ensures r.Some? ==> part == AttachmentPart(boundary, r.value)
  {
    var quotedName :- StripPrefix("Content-Disposition: attachment; filename=\"", part[3]);
    var fileName :- StripSuffix(quotedName, "\"");
    var typed :- StripPrefix("Content-Type: ", part[1]);
    var mediaType :- StripSuffix(typed, "; name=\"" + fileName + "\"");
    var a := Attachment(mediaType, fileName, part[5]);
    if part != AttachmentPart(boundary, a) then None else Some(a)
  }

  /** Reads a line sequence back into the message it renders, if it is one. */
  function Parse(lines: seq<string>): Option<Message> {
    if |lines| != 11 && |lines| != 18 then None
    else
      var head :- ParseHead(lines[..10]);
      var (to, subject, boundary, body) := head;
      if lines[|lines| - 1] != CloseDelimiter(boundary) then None
      else if |lines| == 11 then Some(Message(to, subject, boundary, body, None))
      else
        var a :- ParseAttachment(lines[10..17], boundary);
        Some(Message(to, subject, boundary, body, Some(a)))
  }

  lemma ParseHeadRendered(to: string, subject: string, boundary: string, body: string)
    ensures ParseHead(Headers(to, subject, boundary) + HtmlPart(boundary, body)) == Some((to, subject, boundary, body))
  {
    var l := Headers(to, subject, boundary) + HtmlPart(boundary, body);
    StripPrefixConcat("To: ", to);
    StripPrefixConcat("Subject: ", subject);
    StripPrefixConcat("Content-Type: multipart/mixed; boundary=\"", boundary + "\"");
    assert l[3] == "Content-Type: multipart/mixed; boundary=\"" + (boundary + "\"");
    StripSuffixConcat(boundary, "\"");
  }

  lemma ParseAttachmentRendered(boundary: string, a: Attachment)
    ensures ParseAttachment(AttachmentPart(boundary, a), boundary) == Some(a)
  {
    var l := AttachmentPart(boundary, a);
    StripPrefixConcat("Content-Disposition: attachment; filename=\"", a.fileName + "\"");
    assert l[3] == "Content-Disposition: attachment; filename=\"" + (a.fileName + "\"");
    StripSuffixConcat(a.fileName, "\"");
    var nameParam := "; name=\"" + a.fileName + "\"";
    StripPrefixConcat("Content-Type: ", a.mediaType + nameParam);
    assert l[1] == "Content-Type: " + (a.mediaType + nameParam);
    StripSuffixConcat(a.mediaType, nameParam);
  }

  /** Every rendered message reads back: recipient, subject, boundary, body and
      attachment are all recoverable from the lines. */
  lemma ParseLines(m: Message)
    ensures Parse(Lines(m)) == Some(m)
  {
    var l := Lines(m);
    assert l[..10] == Headers(m.to, m.subject, m.boundary) + HtmlPart(m.boundary, m.body);
    ParseHeadRendered(m.to, m.subject, m.boundary, m.body);
    if m.attachment.Some? {
      assert l[10..17] == AttachmentPart(m.boundary, m.attachment.value);
      ParseAttachmentRendered(m.boundary, m.attachment.value);
    }
  }

  /** A parsed header block and HTML part are the rendered ones of the message. */
  lemma ParsedFront(lines: seq<string>, m: Message)
    requires Parse(lines) == Some(m)
    ensures |lines| == 11 || |lines| == 18
    ensures lines[..10] == Headers(m.to, m.subject, m.boundary) + HtmlPart(m.boundary, m.body)
    ensures lines[|lines| - 1] == CloseDelimiter(m.boundary)
    ensures m.attachment.Some? <==> |lines| == 18
    ensures m.attachment.Some? ==> lines[10..17] == AttachmentPart(m.boundary, m.attachment.value)
  {
    var head := ParseHead(lines[..10]).value;
    assert head == (m.to, m.subject, m.boundary, m.body);
  }

  /** Only rendered messages parse: `Parse` accepts exactly the outputs of `Lines`. */
  lemma LinesParse(lines: seq<string>, m: Message)
    requires Parse(lines) == Some(m)
    ensures Lines(m) == lines
  {
    ParsedFront(lines, m);
    var front := Headers(m.to, m.subject, m.boundary) + HtmlPart(m.boundary, m.body);
    if |lines| == 11 {
      assert Lines(m) == front + [CloseDelimiter(m.boundary)];
      assert lines == lines[..10] + [lines[10]];
    } else {
      assert Lines(m) == front + AttachmentPart(m.boundary, m.attachment.value) + [CloseDelimiter(m.boundary)];
      assert lines == lines[..10] + lines[10..17] + [lines[17]];
    }
  }

  /** `Array.prototype.join('\n')`. */
  function Join(lines: seq<string>): (r: string)
    ensures |lines| == 1 ==> r == lines[0]
    ensures |lines| >= 2 ==> lines[0] + "\n" <= r
  {
    if |lines| == 0 then ""
    else if |lines| == 1 then lines[0]
    else lines[0] + "\n" + Join(lines[1..])
  }

  /** `String.prototype.split('\n')`: the receiving side of `Join`. */
  function Split(text: string): (r: seq<string>)
    ensures |r| >= 1
  {
    if |text| == 0 then [""]
    else
      var rest := Split(text[1..]);
      if text[0] == '\n' then [""] + rest
      else [[text[0]] + rest[0]] + rest[1..]
  }

  predicate NoNewline(s: string) {
    forall i :: 0 <= i < |s| ==> s[i] != '\n'
  }

  /** Every media type `getMimeType` can return fits on the `Content-Type` line. */
  lemma MediaTypeSingleLine(ext: string)
    ensures NoNewline(MediaType(ext))
  {
    TypesSingleLine();
  }

  lemma TypesSingleLine()
    ensures NoNewline(PdfType) && NoNewline(DocType) && NoNewline(DefaultType)
    ensures NoNewline(DocxType)
  {
    assert NoNewline(DocxHead) && NoNewline(DocxMiddle) && NoNewline(".document");
    NoNewlineConcat(DocxHead, DocxMiddle);
    NoNewlineConcat(DocxHead + DocxMiddle, ".document");
  }

  lemma {:induction false} SplitLine(line: string, rest: string)
    requires NoNewline(line)
    ensures Split(line + "\n" + rest) == [line] + Split(rest)
    ensures Split(line) == [line]
  {
    if |line| > 0 {
      assert (line + "\n" + rest)[1..] == line[1..] + "\n" + rest;
      SplitLine(line[1..], rest);
      assert [line[0]] + line[1..] == line;
    }
  }

  /** Joining lines that hold no newline and splitting again gives the same lines. */
  lemma {:induction false} SplitJoin(lines: seq<string>)
    requires |lines| >= 1
    requires forall i :: 0 <= i < |lines| ==> NoNewline(lines[i])
    ensures Split(Join(lines)) == lines
  {
    SplitLine(lines[0], "");
    if |lines| > 1 {
      SplitLine(lines[0], Join(lines[1..]));
      SplitJoin(lines[1..]);
      assert [lines[0]] + lines[1..] == lines;
    }
  }

  /** A message none of whose fields holds a newline renders to newline-free lines. */
  predicate SingleLineFields(m: Message) {
    && NoNewline(m.to) && NoNewline(m.subject) && NoNewline(m.boundary) && NoNewline(m.body)
    && (m.attachment.Some? ==>
          NoNewline(m.attachment.value.mediaType)
          && NoNewline(m.attachment.value.fileName)
          && NoNewline(m.attachment.value.payload))
  }

  predicate AllSingleLine(lines: seq<string>) {
    forall i :: 0 <= i < |lines| ==> NoNewline(lines[i])
  }

  lemma HeadersSingleLine(to: string, subject: string, boundary: string)
    requires NoNewline(to) && NoNewline(subject) && NoNewline(boundary)
    ensures AllSingleLine(Headers(to, subject, boundary))
  {
    NoNewlineConcat("To: ", to);
    NoNewlineConcat("Subject: ", subject);
    NoNewlineConcat("Content-Type: multipart/mixed; boundary=\"", boundary);
    NoNewlineConcat("Content-Type: multipart/mixed; boundary=\"" + boundary, "\"");
  }

  lemma HtmlPartSingleLine(boundary: string, body: string)
    requires NoNewline(boundary) && NoNewline(body)
    ensures AllSingleLine(HtmlPart(boundary, body))
  {
    NoNewlineConcat("--", boundary);
  }

  lemma AttachmentPartSingleLine(boundary: string, a: Attachment)
    requires NoNewline(boundary) && NoNewline(a.mediaType) && NoNewline(a.fileName) && NoNewline(a.payload)
    ensures AllSingleLine(AttachmentPart(boundary, a))
  {
    NoNewlineConcat("--", boundary);
    NoNewlineConcat("; name=\"", a.fileName);
    NoNewlineConcat("; name=\"" + a.fileName, "\"");
    NoNewlineConcat("Content-Type: ", a.mediaType);
    NoNewlineConcat("Content-Type: " + a.mediaType, "; name=\"" + a.fileName + "\"");
    assert "Content-Type: " + a.mediaType + "; name=\"" + a.fileName + "\""
        == "Content-Type: " + a.mediaType + ("; name=\"" + a.fileName + "\"");
    NoNewlineConcat("Content-Disposition: attachment; filename=\"", a.fileName);
    NoNewlineConcat("Content-Disposition: attachment; filename=\"" + a.fileName, "\"");
  }

  lemma AllSingleLineConcat(x: seq<string>, y: seq<string>)
    requires AllSingleLine(x) && AllSingleLine(y)
    ensures AllSingleLine(x + y)
  {
    forall i | 0 <= i < |x + y|
      ensures NoNewline((x + y)[i])
    {
      if i >= |x| {
        assert (x + y)[i] == y[i - |x|];
      }
    }
  }

  lemma LinesSingleLine(m: Message)
    requires SingleLineFields(m)
    ensures AllSingleLine(Lines(m))
  {
    var b := m.boundary;
    HeadersSingleLine(m.to, m.subject, b);
    HtmlPartSingleLine(b, m.body);
    AllSingleLineConcat(Headers(m.to, m.subject, b), HtmlPart(b, m.body));
    var front := Headers(m.to, m.subject, b) + HtmlPart(b, m.body);
    var middle := if m.attachment.Some? then AttachmentPart(b, m.attachment.value) else [];
    if m.attachment.Some? {
      AttachmentPartSingleLine(b, m.attachment.value);
    }
    AllSingleLineConcat(front, middle);
    NoNewlineConcat("--", b);
    NoNewlineConcat("--" + b, "--");
    AllSingleLineConcat(front + middle, [CloseDelimiter(b)]);
  }

  lemma NoNewlineConcat(a: string, b: string)
    requires NoNewline(a) && NoNewline(b)
    ensures NoNewline(a + b)
  {
    forall i | 0 <= i < |a + b|
      ensures (a + b)[i] != '\n'
    {
      if i >= |a| {
        assert (a + b)[i] == b[i - |a|];
      }
    }
  }

  /** The joined text of a single-line message splits and parses back to it. */
  lemma ParseText(m: Message)
    requires SingleLineFields(m)
    ensures Parse(Split(Join(Lines(m)))) == Some(m)
  {
    LinesSingleLine(m);
    SplitJoin(Lines(m));
    ParseLines(m);
  }

  /** Joining two non-empty runs of lines puts one newline between them. */
  lemma {:induction false} JoinAppend(a: seq<string>, b: seq<string>)
    requires |a| >= 1 && |b| >= 1
    ensures Join(a + b) == Join(a) + "\n" + Join(b)
  {
    if |a| == 1 {
      assert (a + b)[1..] == b;
    } else {
      assert (a + b)[1..] == a[1..] + b;
      JoinAppend(a[1..], b);
    }
  }

  lemma JoinCons(x: string, rest: seq<string>)
    requires |rest| >= 1
    ensures Join([x] + rest) == x + "\n" + Join(rest)
  {
    assert ([x] + rest)[1..] == rest;
  }

  /** A line followed by an empty line, between two non-empty runs, sits
      between their joins. */
  lemma JoinAround(head: seq<string>, x: string, tail: seq<string>)
    requires |head| >= 1 && |tail| >= 1
    ensures Join(head + ([x] + ([""] + tail))) == Join(head) + "\n" + x + "\n\n" + Join(tail)
  {
    JoinAppend(head, [x] + ([""] + tail));
    JoinCons(x, [""] + tail);
    JoinCons("", tail);
    Regroup(Join(head), x, Join(tail));
  }

  lemma Regroup(a: string, x: string, b: string)
    ensures a + "\n" + (x + "\n" + ("" + "\n" + b)) == a + "\n" + x + "\n\n" + b
  {
    assert "" + "\n" + b == "\n" + b;
    assert x + "\n" + ("\n" + b) == x + "\n\n" + b;
  }

  /** The join of two or more lines starts with the first line and a newline. */
  lemma JoinHead(l: seq<string>)
    requires |l| >= 2
    ensures var t := Join(l); var h := l[0] + "\n";
      |t| >= |h| && t[..|h|] == h
  {
    assert l == [l[0]] + l[1..];
    JoinCons(l[0], l[1..]);
  }

  /** The joined text is the header block, the body verbatim on the line after
      the HTML part's blank line, and the rest of the message, which ends with
      the closing delimiter; the first line is the `To:` header. */
  lemma TextLayout(m: Message)
    ensures Join(Lines(m)) == Join(Lines(m)[..8]) + "\n" + m.body + "\n\n" + Join(Lines(m)[10..])
    ensures var head := Join(Lines(m)[..8]); var to := "To: " + m.to + "\n";
      |head| >= |to| && head[..|to|] == to
    ensures var tail := Join(Lines(m)[10..]); var close := CloseDelimiter(m.boundary);
      |tail| >= |close| && tail[|tail| - |close|..] == close
  {
    var l := Lines(m);
    assert l[0] == "To: " + m.to && l[8] == m.body && l[9] == "";
    assert l == l[..8] + ([m.body] + ([""] + l[10..]));
    JoinAround(l[..8], m.body, l[10..]);
    JoinHead(l[..8]);
    JoinTail(l[10..]);
  }

  /** The join of a run of lines ends with its last line. */
  lemma {:induction false} JoinTail(lines: seq<string>)
    requires |lines| >= 1
    ensures var t := Join(lines); var last := lines[|lines| - 1];
      |t| >= |last| && t[|t| - |last|..] == last
  {
    if |lines| > 1 {
      JoinTail(lines[1..]);
      assert lines[1..][|lines[1..]| - 1] == lines[|lines| - 1];
    }
  }
}
