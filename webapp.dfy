// The decisions buried in the upload handler of app/webapp.py: which file
// names are accepted, which folder an upload is stored in, whether the text
// extracted from it reaches the chatbot, how a served path is split into
// folder and file name, and the POST handler that strings them together.

module WebApp {
  import opened TextCleaning
  import opened Session

  /** The accepted extensions, lower case. */
  const AllowedExtensions: set<string> := {"pdf", "wav", "mp3", "png", "jpg", "jpeg"}

  // ---------------------------------------------------------------------
  // Extensions

  /** The text after the last '.': the second part of splitting once from
      the right. Without a '.' that split has no second part. */
  function RSplitTail(name: string): (e: string)
    requires '.' in name
    ensures '.' !in e
    ensures IsSuffix("." + e, name)
    decreases |name|
  {
    var last := name[|name| - 1];
    if last == '.' then []
    else
      assert '.' in name[..|name| - 1] by {
        var k :| 0 <= k < |name| && name[k] == '.';
        assert name[..|name| - 1][k] == '.';
      }
      var e := RSplitTail(name[..|name| - 1]) + [last];
      assert name[..|name| - 1] + [last] == name;
      e
  }

  /** The tail after the last '.' is the only dot-free text that follows a
      '.' at the end of the name. */
  lemma {:induction false} DotFreeSuffixUnique(name: string, e: string)
    requires '.' !in e && IsSuffix("." + e, name)
    ensures '.' in name && RSplitTail(name) == e
    decreases |e|
  {
    assert name[|name| - |e| - 1] == ("." + e)[0];
    if e == [] {
      assert name[|name| - 1] == '.';
    } else {
      var init := name[..|name| - 1];
      var e0 := e[..|e| - 1];
      assert name[|name| - 1] == e[|e| - 1];
      assert e[|e| - 1] in e;
      assert '.' !in e0;
      assert IsSuffix("." + e0, init) by {
        assert init[|init| - |"." + e0|..] == name[|name| - |"." + e|..|name| - 1];
        assert ("." + e)[..|"." + e| - 1] == "." + e0;
      }
      DotFreeSuffixUnique(init, e0);
      assert e0 + [e[|e| - 1]] == e;
    }
  }

  function LowerChar(c: char): char {
    if 'A' <= c <= 'Z' then (c as int + 32) as char else c
  }

  /** Lower-casing of the ASCII letters. */
  function Lower(s: string): (r: string)
    ensures |r| == |s|
    ensures forall i :: 0 <= i < |s| ==> r[i] == LowerChar(s[i])
    decreases |s|
  {
    if s == [] then [] else [LowerChar(s[0])] + Lower(s[1..])
  }

  /** A name is accepted when it has a '.' and the lower-cased text after
      its last '.' is one of the accepted extensions; that is, exactly when
      some dot-free text ending it after a '.' lower-cases to an accepted
      extension. */
  function AllowedFile(filename: string): (r: bool)
    ensures r <==> exists e :: '.' !in e && IsSuffix("." + e, filename) && Lower(e) in AllowedExtensions
  {
    assert (exists e :: '.' !in e && IsSuffix("." + e, filename) && Lower(e) in AllowedExtensions)
        ==> '.' in filename && Lower(RSplitTail(filename)) in AllowedExtensions by {
      if exists e :: '.' !in e && IsSuffix("." + e, filename) && Lower(e) in AllowedExtensions {
        var e :| '.' !in e && IsSuffix("." + e, filename) && Lower(e) in AllowedExtensions;
        DotFreeSuffixUnique(filename, e);
      }
    }
    '.' in filename && Lower(RSplitTail(filename)) in AllowedExtensions
  }

  /** A name without a '.' is never accepted. */
  lemma NoDotRejected(filename: string)
    requires '.' !in filename
    ensures !AllowedFile(filename)
  {
  }

  /** Only the last extension counts, whatever its case. */
  lemma AllowedFileExamples()
    ensures AllowedFile("a.tar.PDF")
    ensures !AllowedFile("pdf.exe")
    ensures !AllowedFile("x.")
  {
    DotFreeSuffixUnique("a.tar.PDF", "PDF");
    assert Lower("PDF") == "pdf";
    ExtensionRejected("pdf.exe", "exe");
    TrailingDotRejected();
  }

  lemma TrailingDotRejected()
    ensures !AllowedFile("x.")
  {
    assert Lower("") == "";
    assert "" !in AllowedExtensions;
    ExtensionRejected("x.", "");
  }

  /** A name whose last extension lower-cases to no accepted one is rejected. */
  lemma ExtensionRejected(filename: string, e: string)
    requires '.' !in e && IsSuffix("." + e, filename) && Lower(e) !in AllowedExtensions
    ensures !AllowedFile(filename)
  {
    DotFreeSuffixUnique(filename, e);
    assert RSplitTail(filename) == e;
  }

  // ---------------------------------------------------------------------
  // Storage folder

  datatype Folder = UploadFolder | AudioFolder | ImagesFolder | PdfFolder

  predicate IsAudio(ext: string) {
    ext == "wav" || ext == "mp3"
  }

  predicate IsImage(ext: string) {
    ext == "png" || ext == "jpg" || ext == "jpeg"
  }

  /** The folder chosen for an upload's lower-cased extension. */
  function FolderFor(ext: string): (f: Folder)
    ensures f == PdfFolder <==> ext == "pdf"
    ensures f == AudioFolder <==> IsAudio(ext)
    ensures f == ImagesFolder <==> IsImage(ext)
    ensures f == UploadFolder <==> ext !in AllowedExtensions
  {
    if ext == "pdf" then PdfFolder
    else if IsAudio(ext) then AudioFolder
    else if IsImage(ext) then ImagesFolder
    else UploadFolder
  }

  /** The three named branches are disjoint, and an accepted name kept as
      is by the sanitiser always gets a dedicated folder. */
  lemma FolderForAccepted(filename: string)
    requires AllowedFile(filename)
    ensures FolderFor(Lower(RSplitTail(filename))) != UploadFolder
  {
  }

  // ---------------------------------------------------------------------
  // Extraction and the ingest gate

  /** What a converter did: returned text (an absent result is the empty
      text) or raised with a message. */
  datatype Converted = Extracted(text: string) | Failed(message: string)

  const PdfPlaceholder: string := "No readable text found in PDF"
  const AudioPlaceholder: string := "No speech detected in audio"
  const ImagePlaceholder: string := "No text detected in image"
  const PdfError: string := "Error processing PDF: "
  const AudioError: string := "Error processing audio: "
  const ImageError: string := "Error processing image: "

  /** One converter's branch: usable text, the placeholder for nothing
      found, or the error line with the failure's message. */
  function Outcome(conv: Converted, placeholder: string, errorPrefix: string): (r: string)
    ensures conv.Extracted? && !Blank(conv.text) ==> r == conv.text
    ensures conv.Extracted? && Blank(conv.text) ==> r == placeholder
    ensures conv.Failed? ==> r == errorPrefix + conv.message
  {
    match conv
    case Extracted(t) => if t != [] && Strip(t) != [] then t else placeholder
    case Failed(m) => errorPrefix + m
  }

  /** The text the handler holds after running the converter for the
      extension: empty when no converter applies, the returned text when it
      is not blank, the extension's placeholder when it is, and an error
      line when the converter raised. */
  function ExtractedText(ext: string, conv: Converted): (r: string)
    ensures ext !in AllowedExtensions ==> r == ""
    ensures ext in AllowedExtensions && conv.Extracted? && !Blank(conv.text) ==> r == conv.text
    ensures ext == "pdf" && conv.Extracted? && Blank(conv.text) ==> r == PdfPlaceholder
    ensures IsAudio(ext) && conv.Extracted? && Blank(conv.text) ==> r == AudioPlaceholder
    ensures IsImage(ext) && conv.Extracted? && Blank(conv.text) ==> r == ImagePlaceholder
    ensures ext == "pdf" && conv.Failed? ==> r == PdfError + conv.message
    ensures IsAudio(ext) && conv.Failed? ==> r == AudioError + conv.message
    ensures IsImage(ext) && conv.Failed? ==> r == ImageError + conv.message
  {
    if ext == "pdf" then Outcome(conv, PdfPlaceholder, PdfError)
    else if IsAudio(ext) then Outcome(conv, AudioPlaceholder, AudioError)
    else if IsImage(ext) then Outcome(conv, ImagePlaceholder, ImageError)
    else ""
  }

  predicate StartsWith(s: string, prefix: string) {
    |prefix| <= |s| && s[..|prefix|] == prefix
  }

  /** Whether extracted text is added to the chatbot's context. */
  function ShouldIngest(text: string): (r: bool)
    ensures r <==> !Blank(text) && !StartsWith(text, "Error")
  {
    text != [] && Strip(text) != [] && !StartsWith(text, "Error")
  }

  lemma ErrorLinesStartWithError(prefix: string, m: string)
    requires prefix == PdfError || prefix == AudioError || prefix == ImageError
    ensures StartsWith(prefix + m, "Error")
  {
    assert (prefix + m)[..5] == prefix[..5];
  }

  lemma PlaceholdersPass(p: string)
    requires p == PdfPlaceholder || p == AudioPlaceholder || p == ImagePlaceholder
    ensures ShouldIngest(p)
  {
    assert p[0] == 'N' && !IsSpace(p[0]);
    assert p[..5] != "Error" by { assert p[..5][0] == 'N'; }
  }

  /** A converter failure never reaches the context. */
  lemma FailuresNeverIngested(ext: string, m: string)
    ensures !ShouldIngest(ExtractedText(ext, Failed(m)))
  {
    if ext == "pdf" {
      ErrorLinesStartWithError(PdfError, m);
    } else if IsAudio(ext) {
      ErrorLinesStartWithError(AudioError, m);
    } else if IsImage(ext) {
      ErrorLinesStartWithError(ImageError, m);
    }
  }

  /** A converter that finds nothing still has its placeholder ingested. */
  lemma PlaceholdersIngested(ext: string, t: string)
    requires ext in AllowedExtensions && Blank(t)
    ensures ExtractedText(ext, Extracted(t)) in {PdfPlaceholder, AudioPlaceholder, ImagePlaceholder}
    ensures ShouldIngest(ExtractedText(ext, Extracted(t)))
  {
    assert Strip(t) == [];
    PlaceholdersPass(ExtractedText(ext, Extracted(t)));
  }

  /** The gate, stated on what the converter did: text is ingested exactly
      when a converter ran, returned, and its result was either blank (so
      a placeholder is used) or does not itself start with "Error". */
  lemma IngestGateIff(ext: string, conv: Converted)
    ensures ShouldIngest(ExtractedText(ext, conv))
        <==> ext in AllowedExtensions && conv.Extracted?
             && (Blank(conv.text) || !StartsWith(conv.text, "Error"))
  {
    if ext in AllowedExtensions {
      match conv
      case Failed(m) => FailuresNeverIngested(ext, m);
      case Extracted(t) =>
        if Blank(t) {
          PlaceholdersIngested(ext, t);
        } else {
          assert ExtractedText(ext, conv) == t;
        }
    }
  }

  // ---------------------------------------------------------------------
  // Serving uploaded files

  /** Whether seg occurs in s at index i. */
  predicate OccursAt(s: string, seg: string, i: int) {
    0 <= i && i + |seg| <= |s| && s[i..i + |seg|] == seg
  }

  /** Whether seg occurs in s, scanning from the left: exactly when it
      occurs at some index. */
  function Contains(s: string, seg: string): (r: bool)
    ensures r <==> exists i :: OccursAt(s, seg, i)
    decreases |s|
  {
    if |s| < |seg| then false
    else if s[..|seg|] == seg then
      assert OccursAt(s, seg, 0) by { assert s[0..0 + |seg|] == s[..|seg|]; }
      true
    else
      OccurrencesAfterFirst(s, seg);
      Contains(s[1..], seg)
  }

  /** With no occurrence at index 0, the occurrences are those in the rest
      of the text, shifted by one. */
  lemma OccurrencesAfterFirst(s: string, seg: string)
    requires |seg| <= |s| && s[..|seg|] != seg
    ensures s != []
    ensures (exists i :: OccursAt(s, seg, i)) <==> (exists i :: OccursAt(s[1..], seg, i))
  {
    if exists i :: OccursAt(s[1..], seg, i) {
      var i :| OccursAt(s[1..], seg, i);
      assert s[1..][i..i + |seg|] == s[i + 1..i + 1 + |seg|];
      assert OccursAt(s, seg, i + 1);
    }
    if exists i :: OccursAt(s, seg, i) {
      var i :| OccursAt(s, seg, i);
      assert s[1..][i - 1..i - 1 + |seg|] == s[i..i + |seg|];
      assert OccursAt(s[1..], seg, i - 1);
    }
  }

  /** Every occurrence of a non-empty segment removed in one left-to-right
      pass, as replacing it by the empty string does. */
  function RemoveAll(s: string, seg: string): (r: string)
    requires seg != []
    ensures |r| <= |s|
    decreases |s|
  {
    if |s| < |seg| then s
    else if s[..|seg|] == seg then RemoveAll(s[|seg|..], seg)
    else [s[0]] + RemoveAll(s[1..], seg)
  }

  /** Removal shortens the text exactly when the segment occurs. */
  lemma {:induction false} RemoveAllShortens(s: string, seg: string)
    requires seg != []
    ensures Contains(s, seg) ==> |RemoveAll(s, seg)| < |s|
    ensures !Contains(s, seg) ==> RemoveAll(s, seg) == s
    decreases |s|
  {
    if |s| >= |seg| && s[..|seg|] != seg {
      RemoveAllShortens(s[1..], seg);
      assert [s[0]] + s[1..] == s;
    }
  }

  /** Removal deletes the leftmost occurrence and carries on after it: the
      text before the first occurrence is kept as it is, and the rest is
      handled the same way. With the text left unchanged when the segment
      does not occur, this fixes the result of removal completely. */
  lemma {:induction false} RemoveAllAtFirst(s: string, seg: string, i: nat)
    requires seg != [] && OccursAt(s, seg, i)
    requires forall j :: 0 <= j < i ==> !OccursAt(s, seg, j)
    ensures RemoveAll(s, seg) == s[..i] + RemoveAll(s[i + |seg|..], seg)
    decreases i
  {
    if i == 0 {
      RemoveAtStart(s, seg);
    } else {
      FirstOccurrenceInRest(s, seg, i);
      RemoveAllAtFirst(s[1..], seg, i - 1);
      SlicesOfRest(s, i, |seg|);
      PrependKept(s, i, |seg|, RemoveAll(s, seg), RemoveAll(s[1..], seg), RemoveAll(s[i + |seg|..], seg));
    }
  }

  lemma RemoveAtStart(s: string, seg: string)
    requires seg != [] && OccursAt(s, seg, 0)
    ensures RemoveAll(s, seg) == s[..0] + RemoveAll(s[0 + |seg|..], seg)
  {
    assert s[..|seg|] == s[0..0 + |seg|];
    assert s[..0] == [];
  }

  /** One step of the induction, stated on plain strings: a first
      character kept in front of a kept prefix of the rest makes a kept
      prefix of the whole. */
  lemma PrependKept(s: string, i: nat, n: nat, x: string, y: string, tail: string)
    requires 0 < i && i + n <= |s|
    requires x == [s[0]] + y && y == s[1..][..i - 1] + tail
    ensures x == s[..i] + tail
  {
    SlicesOfRest(s, i, n);
  }

  lemma SlicesOfRest(s: string, i: nat, n: nat)
    requires 0 < i && i + n <= |s|
    ensures s[..i] == [s[0]] + s[1..][..i - 1]
    ensures s[1..][i - 1 + n..] == s[i + n..]
  {
  }

  /** A first occurrence past index 0 is the first occurrence of the rest,
      one index earlier, and removal keeps the first character. */
  lemma FirstOccurrenceInRest(s: string, seg: string, i: nat)
    requires seg != [] && 0 < i && OccursAt(s, seg, i)
    requires forall j :: 0 <= j < i ==> !OccursAt(s, seg, j)
    ensures OccursAt(s[1..], seg, i - 1)
    ensures forall j :: 0 <= j < i - 1 ==> !OccursAt(s[1..], seg, j)
    ensures RemoveAll(s, seg) == [s[0]] + RemoveAll(s[1..], seg)
  {
    var t := s[1..];
    assert !OccursAt(s, seg, 0);
    assert s[..|seg|] != seg by { assert s[..|seg|] == s[0..0 + |seg|]; }
    assert t[i - 1..i - 1 + |seg|] == s[i..i + |seg|];
    forall j | 0 <= j < i - 1 ensures !OccursAt(t, seg, j) {
      assert !OccursAt(s, seg, j + 1);
      assert t[j..j + |seg|] == s[j + 1..j + 1 + |seg|];
    }
  }

  lemma RemoveKeeps(x: string, seg: string, k: nat)
    requires seg != [] && |seg| <= |x| && k < |seg| && x[k] != seg[k]
    ensures RemoveAll(x, seg) == [x[0]] + RemoveAll(x[1..], seg)
  {
    assert x[..|seg|][k] == x[k];
  }

  /** Removal is a single pass: text that only forms the segment once an
      inner occurrence is gone is left in place. */
  lemma RemoveAllSinglePass()
    ensures RemoveAll("aaudio/udio/", "audio/") == "audio/"
    ensures Contains(RemoveAll("aaudio/udio/", "audio/"), "audio/")
  {
    var s, r := "aaudio/udio/", "audio/";
    RemoveKeeps(s, r, 1);
    var s1 := s[1..];
    assert s1[..6] == r && s1[6..] == "udio/";
    assert RemoveAll(s1, r) == "udio/";
    assert [s[0]] + "udio/" == r;
    assert r[..6] == r;
  }

  /** The folder and file name a served path maps to: the segments are
      tested anywhere in the path, audio first, then images, then PDF. */
  function Route(path: string): (r: (Folder, string))
    ensures r.0 == AudioFolder <==> Contains(path, "audio/")
    ensures r.0 == ImagesFolder <==> !Contains(path, "audio/") && Contains(path, "images/")
    ensures r.0 == PdfFolder
        <==> !Contains(path, "audio/") && !Contains(path, "images/") && Contains(path, "pdf_management/")
    ensures r.0 == UploadFolder ==> r.1 == path
    ensures r.0 == AudioFolder ==> r.1 == RemoveAll(path, "audio/")
    ensures r.0 == ImagesFolder ==> r.1 == RemoveAll(path, "images/")
    ensures r.0 == PdfFolder ==> r.1 == RemoveAll(path, "pdf_management/")
    ensures r.0 != UploadFolder ==> |r.1| < |path|
  {
    if Contains(path, "audio/") then
      RemoveAllShortens(path, "audio/");
      (AudioFolder, RemoveAll(path, "audio/"))
    else if Contains(path, "images/") then
      RemoveAllShortens(path, "images/");
      (ImagesFolder, RemoveAll(path, "images/"))
    else if Contains(path, "pdf_management/") then
      RemoveAllShortens(path, "pdf_management/");
      (PdfFolder, RemoveAll(path, "pdf_management/"))
    else (UploadFolder, path)
  }

  /** A folder prefix: its only '/' is its last character. */
  predicate FolderPrefix(prefix: string) {
    prefix != [] && prefix[|prefix| - 1] == '/' && '/' !in prefix[..|prefix| - 1]
  }

  lemma SlashOnlyAtPrefixEnd(prefix: string, name: string, j: int)
    requires FolderPrefix(prefix) && '/' !in name
    requires 0 <= j < |prefix + name| && (prefix + name)[j] == '/'
    ensures j == |prefix| - 1
  {
  }

  /** A segment ending in '/' occurs in a folder prefix followed by a
      slash-free name exactly when it ends the prefix. */
  lemma SegmentAfterPrefix(prefix: string, name: string, seg: string)
    requires FolderPrefix(prefix) && '/' !in name
    requires seg != [] && seg[|seg| - 1] == '/'
    ensures Contains(prefix + name, seg) <==> IsSuffix(seg, prefix)
  {
    var s := prefix + name;
    if Contains(s, seg) {
      var i :| OccursAt(s, seg, i);
      var j := i + |seg| - 1;
      assert s[j] == s[i..i + |seg|][|seg| - 1];
      SlashOnlyAtPrefixEnd(prefix, name, j);
      assert prefix[|prefix| - |seg|..] == s[i..i + |seg|];
    }
    if IsSuffix(seg, prefix) {
      var i := |prefix| - |seg|;
      assert s[i..i + |seg|] == prefix[i..];
      assert OccursAt(s, seg, i);
    }
  }

  /** Removing a segment that starts the text and does not occur in the
      rest leaves the rest. */
  lemma RemoveLeading(seg: string, name: string)
    requires seg != [] && !Contains(name, seg)
    ensures RemoveAll(seg + name, seg) == name
  {
    RemoveAllShortens(name, seg);
    assert (seg + name)[..|seg|] == seg;
    assert (seg + name)[|seg|..] == name;
  }

  lemma SlashFreeLacks(name: string, seg: string)
    requires '/' !in name && seg != [] && seg[|seg| - 1] == '/'
    ensures !Contains(name, seg)
  {
  }

  /** Round trip with the sidebar: the served path built for a listed file
      (folder segment, then the slash-free file name) maps back to that
      folder and that name. */
  lemma RouteListedPath(name: string)
    requires '/' !in name
    ensures Route("audio/" + name) == (AudioFolder, name)
    ensures Route("images/" + name) == (ImagesFolder, name)
    ensures Route("pdf_management/" + name) == (PdfFolder, name)
  {
    RouteAudio(name);
    RouteImages(name);
    RoutePdf(name);
  }

  lemma RouteAudio(name: string)
    requires '/' !in name
    ensures Route("audio/" + name) == (AudioFolder, name)
  {
    SlashFreeLacks(name, "audio/");
    assert FolderPrefix("audio/");
    SegmentAfterPrefix("audio/", name, "audio/");
    RemoveLeading("audio/", name);
  }

  lemma RouteImages(name: string)
    requires '/' !in name
    ensures Route("images/" + name) == (ImagesFolder, name)
  {
    SlashFreeLacks(name, "images/");
    assert FolderPrefix("images/");
    SegmentAfterPrefix("images/", name, "audio/");
    assert !IsSuffix("audio/", "images/");
    SegmentAfterPrefix("images/", name, "images/");
    RemoveLeading("images/", name);
  }

  lemma RoutePdf(name: string)
    requires '/' !in name
    ensures Route("pdf_management/" + name) == (PdfFolder, name)
  {
    SlashFreeLacks(name, "pdf_management/");
    assert FolderPrefix("pdf_management/");
    SegmentAfterPrefix("pdf_management/", name, "audio/");
    assert !IsSuffix("audio/", "pdf_management/");
    SegmentAfterPrefix("pdf_management/", name, "images/");
    assert !IsSuffix("images/", "pdf_management/");
    SegmentAfterPrefix("pdf_management/", name, "pdf_management/");
    RemoveLeading("pdf_management/", name);
  }

  // ---------------------------------------------------------------------
  // The POST handler

  /** One uploaded file: the name the client sent, the name the sanitiser
      made of it, whether saving it succeeded, and what its converter did. */
  datatype Upload = Upload(filename: string, secured: string, saved: bool, converted: Converted)

  /** The message flashed to the user about an upload. */
  datatype Notice =
    | NoNotice
    | Processed(name: string, chars: nat)
    | NotProcessed(name: string, text: string)
    | SaveFailed
    | InvalidFile

  datatype Response =
    | Page(notice: Notice, folder: Option<Folder>, answer: Option<string>)
    | ServerError

  predicate Accepted(u: Upload) {
    u.filename != [] && AllowedFile(u.filename)
  }

  /** An accepted upload whose sanitised name lost its '.' makes the
      extension lookup fail outside any handler. */
  predicate Crashes(file: Option<Upload>) {
    file.Some? && Accepted(file.value) && '.' !in file.value.secured
  }

  function StoredExtension(u: Upload): string
    requires '.' in u.secured
  {
    Lower(RSplitTail(u.secured))
  }

  /** The text an accepted, saved upload yields. */
  function UploadText(u: Upload): string
    requires '.' in u.secured
  {
    ExtractedText(StoredExtension(u), u.converted)
  }

  predicate Ingests(file: Option<Upload>) {
    file.Some? && Accepted(file.value) && '.' in file.value.secured
    && file.value.saved && ShouldIngest(UploadText(file.value))
  }

  predicate Asks(question: Option<string>) {
    question.Some? && !Blank(question.value)
  }

  const AnswerErrorPrefix: string := "Sorry, I encountered an error: "
  /** What slicing None raises with. */
  const NoneSliceError: string := "'NoneType' object is not subscriptable"

  /** The answer the page shows: what asking returned, or, when it returned
      nothing, the error raised by slicing it for the log line. */
  function Shown(answer: Option<string>): (r: string)
    ensures answer.Some? ==> r == answer.value
    ensures answer.None? ==> r == AnswerErrorPrefix + NoneSliceError
  {
    match answer
    case Some(a) => a
    case None => AnswerErrorPrefix + NoneSliceError
  }

  /** Handles one POST: stores and ingests the uploaded file, then answers
      the question with the updated context. */
  method HandlePost(bot: Chatbot, file: Option<Upload>, question: Option<string>)
    returns (resp: Response)
    requires bot.Valid()
    modifies bot`context, bot.model`calls
    ensures bot.Valid()
    ensures resp.ServerError? <==> Crashes(file)
    ensures Ingests(file) ==> bot.context == Extend(old(bot.context), PyStr(UploadText(file.value)))
    ensures !Ingests(file) ==> bot.context == old(bot.context)
    ensures resp.Page? && Asks(question)
            ==> resp.answer == Some(Shown(AskOutcome(bot.model.respond, bot.context, Strip(question.value))))
    ensures resp.Page? && Asks(question) && !Blank(bot.context)
            && bot.model.respond(bot.context, Strip(question.value)).Absent?
            ==> resp.answer == Some(AnswerErrorPrefix + NoneSliceError)
    ensures resp.Page? && !Asks(question) ==> resp.answer == None
    ensures bot.model.calls
            == old(bot.model.calls) + (if resp.Page? && Asks(question) && !Blank(bot.context) then 1 else 0)
    ensures resp.Page? && file.None? ==> resp.notice == NoNotice && resp.folder == None
    ensures resp.Page? && file.Some? && !Accepted(file.value)
            ==> resp.notice == InvalidFile && resp.folder == None
    ensures resp.Page? && file.Some? && Accepted(file.value) && !file.value.saved
            ==> resp.notice == SaveFailed
    ensures Ingests(file) ==> resp.notice == Processed(file.value.secured, |UploadText(file.value)|)
    ensures resp.Page? && file.Some? && Accepted(file.value) && file.value.saved && !Ingests(file)
            ==> resp.notice == NotProcessed(file.value.secured, UploadText(file.value))
    ensures resp.Page? && file.Some? && Accepted(file.value)
            ==> resp.folder == Some(FolderFor(StoredExtension(file.value)))
  {
    var notice := NoNotice;
    var folder := None;
    if file.Some? {
      var u := file.value;
      if u.filename != [] && AllowedFile(u.filename) {
        if '.' !in u.secured {
          return ServerError;
        }
        var ext := Lower(RSplitTail(u.secured));
        folder := Some(FolderFor(ext));
        if u.saved {
          var text := ExtractedText(ext, u.converted);
          if text != [] && Strip(text) != [] && !StartsWith(text, "Error") {
            bot.AddContext(PyStr(text));
            notice := Processed(u.secured, |text|);
          } else {
            notice := NotProcessed(u.secured, text);
          }
        } else {
          notice := SaveFailed;
        }
      } else {
        notice := InvalidFile;
      }
    }
    var answer := None;
    if question.Some? && Strip(question.value) != [] {
      var q := Strip(question.value);
      var a := bot.Ask(q);
      answer := Some(Shown(a));
    }
    resp := Page(notice, folder, answer);
  }
}
