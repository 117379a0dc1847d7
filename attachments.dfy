/** Attachments of the current client: which picked files are admitted (`isAllowedFile`, the
    per-file and per-message limits of the `fileInput` change handler), the pending list the
    finished uploads land in, and its removal by chip id. */
module Attachments {
  import opened Text

  const MaxPerFile: nat := 10 * 1024 * 1024
  const MaxTotal: nat := 32 * 1024 * 1024

  const PdfMime: string := "application/pdf"
  const DocxMime: string := "application/vnd.openxmlformats-officedocument.wordprocessingml.document"

  /** A picked `File`: its name, MIME type and size in bytes. */
  datatype FileInfo = FileInfo(name: string, mime: string, size: nat)

  // ----- the extension -----

  predicate NoDot(s: string) {
    forall k :: 0 <= k < |s| ==> s[k] != '.'
  }

  /** `s.split('.').pop()`: the text after the last '.', or all of `s` when it has none. */
  function AfterLastDot(s: string): (r: string)
    ensures |r| <= |s|
    decreases |s|
  {
    if |s| == 0 then ""
    else if s[|s| - 1] == '.' then ""
    else AfterLastDot(s[..|s| - 1]) + [s[|s| - 1]]
  }

  /** AfterLastDot gives a dot-free end of `s` that is all of `s` or follows a '.'. */
  lemma {:induction false} AfterLastDotProps(s: string)
    ensures AfterLastDot(s) == s[|s| - |AfterLastDot(s)|..]
    ensures NoDot(AfterLastDot(s))
    ensures |AfterLastDot(s)| < |s| ==> s[|s| - |AfterLastDot(s)| - 1] == '.'
    decreases |s|
  {
    if |s| > 0 && s[|s| - 1] != '.' {
      var init := s[..|s| - 1];
      AfterLastDotProps(init);
      var q := AfterLastDot(init);
      assert AfterLastDot(s) == q + [s[|s| - 1]];
      assert init[|init| - |q|..] + [s[|s| - 1]] == s[|s| - |q| - 1..];
    }
  }

  /** The three properties of AfterLastDot determine it. */
  lemma AfterLastDotUnique(s: string, r: string)
    requires |r| <= |s| && r == s[|s| - |r|..] && NoDot(r)
    requires |r| < |s| ==> s[|s| - |r| - 1] == '.'
    ensures AfterLastDot(s) == r
  {
    AfterLastDotProps(s);
    var q := AfterLastDot(s);
    NoDotSuffix(s, q);
    NoDotSuffix(s, r);
    assert |q| == |r|;
  }

  /** A dot-free end of `s` leaves no '.' in the last positions of `s`. */
  lemma NoDotSuffix(s: string, t: string)
    requires |t| <= |s| && t == s[|s| - |t|..] && NoDot(t)
    ensures forall k :: |s| - |t| <= k < |s| ==> s[k] != '.'
  {
    assert forall k :: |s| - |t| <= k < |s| ==> s[k] == t[k - (|s| - |t|)];
  }

  /** A text without '.' is what follows the last '.' of `t` exactly when it is all of `t` or
      `t` ends with '.' and then it. */
  lemma AfterLastDotIs(t: string, e: string)
    requires NoDot(e)
    ensures AfterLastDot(t) == e <==> t == e || EndsWith(t, "." + e)
  {
    if t == e {
      AfterLastDotUnique(t, e);
    } else if EndsWith(t, "." + e) {
      assert t[|t| - |e|..] == ("." + e)[1..];
      assert t[|t| - |e| - 1] == ("." + e)[0];
      AfterLastDotUnique(t, e);
    }
    if AfterLastDot(t) == e && t != e {
      AfterLastDotProps(t);
      assert |e| < |t|;
      assert t[|t| - |e| - 1..] == [t[|t| - |e| - 1]] + t[|t| - |e|..];
    }
  }

  function LowerChar(c: char): char {
    if 'A' <= c <= 'Z' then (c as int + 32) as char else c
  }

  /** `toLowerCase` on the ASCII letters. */
  function LowerAscii(s: string): (r: string)
    ensures |r| == |s|
    decreases |s|
  {
    if |s| == 0 then "" else [LowerChar(s[0])] + LowerAscii(s[1..])
  }

  lemma {:induction false} LowerAsciiAt(s: string)
    ensures forall k :: 0 <= k < |s| ==> LowerAscii(s)[k] == LowerChar(s[k])
    decreases |s|
  {
    if |s| > 0 {
      LowerAsciiAt(s[1..]);
    }
  }

  /** Lower-casing keeps the dots where they are, so it commutes with taking the extension. */
  lemma LowerAfterLastDot(name: string)
    ensures LowerAscii(AfterLastDot(name)) == AfterLastDot(LowerAscii(name))
  {
    var t, r := LowerAscii(name), AfterLastDot(name);
    var lr := LowerAscii(r);
    AfterLastDotProps(name);
    LowerAsciiAt(name);
    LowerAsciiAt(r);
    assert lr == t[|t| - |lr|..];
    assert |lr| < |t| ==> t[|t| - |lr| - 1] == '.' by {
      if |lr| < |t| {
        assert name[|name| - |r| - 1] == '.';
      }
    }
    AfterLastDotUnique(t, lr);
  }

  /** `(file.name.split('.').pop() || '').toLowerCase()` */
  function Extension(name: string): string {
    LowerAscii(AfterLastDot(name))
  }

  /** The extension is `e` (a text without '.') exactly when the lower-cased name is `e` itself or
      ends with `"." + e`. */
  lemma ExtensionIs(name: string, e: string)
    requires NoDot(e)
    ensures Extension(name) == e <==> LowerAscii(name) == e || EndsWith(LowerAscii(name), "." + e)
  {
    LowerAfterLastDot(name);
    AfterLastDotIs(LowerAscii(name), e);
  }

  /** `isAllowedFile`: a pdf or docx extension in any case, or one of the two MIME types. */
  predicate IsAllowedFile(f: FileInfo) {
    var ext := Extension(f.name);
    ext == "pdf" || ext == "docx" || f.mime == PdfMime || f.mime == DocxMime
  }

  // ----- admission -----

  /** What the upload of an admitted file is: by extension a PDF upload, a DOCX upload with
      conversion, or (a file admitted by its MIME type alone) nothing. */
  datatype Kind = PdfUpload | DocxUpload | NoUpload

  /** Which branch the change handler takes for a file: one of the three notices, or admission. */
  datatype Verdict = WrongType | TooLarge | OverTotal | Accepted(kind: Kind)

  function KindOf(f: FileInfo): Kind {
    var ext := Extension(f.name);
    if ext == "pdf" then PdfUpload else if ext == "docx" then DocxUpload else NoUpload
  }

  /** The checks of one file, in order, with `pendingTotal` completed uploads pending and
      `acceptedBytes` already admitted in this selection. */
  function Admit(f: FileInfo, pendingTotal: nat, acceptedBytes: nat): (v: Verdict)
    ensures v.Accepted? <==> IsAllowedFile(f) && f.size <= MaxPerFile && pendingTotal + acceptedBytes + f.size <= MaxTotal
    ensures v.Accepted? ==> v.kind == KindOf(f)
    ensures v == TooLarge ==> IsAllowedFile(f) && f.size > MaxPerFile
  {
    if !IsAllowedFile(f) then WrongType
    else if f.size > MaxPerFile then TooLarge
    else if pendingTotal + acceptedBytes + f.size > MaxTotal then OverTotal
    else Accepted(KindOf(f))
  }

  /** The verdicts of a whole selection: `selectionBytesAccepted` grows by the size of every
      admitted file, whatever its kind. */
  function Verdicts(files: seq<FileInfo>, pendingTotal: nat, acceptedBytes: nat): (vs: seq<Verdict>)
    ensures |vs| == |files|
    decreases |files|
  {
    if |files| == 0 then []
    else
      var v := Admit(files[0], pendingTotal, acceptedBytes);
      [v] + Verdicts(files[1..], pendingTotal, acceptedBytes + (if v.Accepted? then files[0].size else 0))
  }

  /** The bytes admitted by a selection. */
  function AcceptedBytes(files: seq<FileInfo>, vs: seq<Verdict>): nat
    requires |vs| == |files|
    decreases |files|
  {
    if |files| == 0 then 0
    else (if vs[0].Accepted? then files[0].size else 0) + AcceptedBytes(files[1..], vs[1..])
  }

  /** A selection never admits more than the per-message limit leaves: what is pending, what an
      earlier part of the selection admitted, and what it admits stay within MaxTotal. */
  lemma {:induction false} SelectionWithinLimit(files: seq<FileInfo>, pendingTotal: nat, acceptedBytes: nat)
    requires pendingTotal + acceptedBytes <= MaxTotal
    ensures pendingTotal + acceptedBytes + AcceptedBytes(files, Verdicts(files, pendingTotal, acceptedBytes)) <= MaxTotal
    decreases |files|
  {
    if |files| > 0 {
      var v := Admit(files[0], pendingTotal, acceptedBytes);
      var next := acceptedBytes + (if v.Accepted? then files[0].size else 0);
      SelectionWithinLimit(files[1..], pendingTotal, next);
      assert Verdicts(files, pendingTotal, acceptedBytes)[1..] == Verdicts(files[1..], pendingTotal, next);
    }
  }

  /** The k-th file of a selection is admitted exactly when it is allowed, within the per-file
      limit, and fits beside what is pending and what the files before it admitted. */
  lemma {:induction false} VerdictAt(files: seq<FileInfo>, pendingTotal: nat, acceptedBytes: nat, k: nat)
    requires k < |files|
    ensures Verdicts(files, pendingTotal, acceptedBytes)[k]
         == Admit(files[k], pendingTotal, acceptedBytes + AcceptedBytes(files[..k], Verdicts(files, pendingTotal, acceptedBytes)[..k]))
    decreases k
  {
    var vs := Verdicts(files, pendingTotal, acceptedBytes);
    if k > 0 {
      var v := Admit(files[0], pendingTotal, acceptedBytes);
      var next := acceptedBytes + (if v.Accepted? then files[0].size else 0);
      VerdictAt(files[1..], pendingTotal, next, k - 1);
      assert vs[1..] == Verdicts(files[1..], pendingTotal, next);
      assert files[..k][1..] == files[1..][..k - 1];
      assert vs[..k][1..] == vs[1..][..k - 1];
    }
  }

  /** The limits are inclusive: a PDF of exactly 10 MiB that brings the total to exactly 32 MiB is
      admitted. */
  lemma LimitsInclusive(name: string)
    requires EndsWith(LowerAscii(name), ".pdf")
    ensures Admit(FileInfo(name, PdfMime, MaxPerFile), MaxTotal - 2 * MaxPerFile, MaxPerFile) == Accepted(KindOf(FileInfo(name, PdfMime, MaxPerFile)))
    ensures Admit(FileInfo(name, PdfMime, MaxPerFile + 1), 0, 0) == TooLarge
  {
    ExtensionIs(name, "pdf");
  }

  /** A file admitted by its MIME type alone (extension neither pdf nor docx) starts no upload, yet
      its size still counts against the limit for the rest of the selection. */
  lemma FallbackBranchCounts(f: FileInfo, g: FileInfo)
    requires f.mime == PdfMime && Extension(f.name) != "pdf" && Extension(f.name) != "docx"
    requires f.size <= MaxPerFile
    ensures Verdicts([f, g], 0, 0)[0] == Accepted(NoUpload)
    ensures Verdicts([f, g], 0, 0)[1] == Admit(g, 0, f.size)
  {
    assert [f, g][1..] == [g];
  }

  // ----- the pending list -----

  /** An entry of `pendingFiles`: a finished upload of the chip `id`. */
  datatype PendingFile = PendingFile(id: nat, displayName: string, displayUrl: string, openaiUrl: string, size: nat)

  /** `getCurrentTotalSize()`: the sum of the pending sizes. */
  function PendingTotal(pending: seq<PendingFile>): nat
    decreases |pending|
  {
    if |pending| == 0 then 0 else PendingTotal(pending[..|pending| - 1]) + pending[|pending| - 1].size
  }

  predicate UniqueIds(pending: seq<PendingFile>) {
    forall i, j :: 0 <= i < j < |pending| ==> pending[i].id != pending[j].id
  }

  /** The pending list without the entries of chip `id`. */
  function WithoutId(pending: seq<PendingFile>, id: nat): (r: seq<PendingFile>)
    ensures |r| <= |pending|
    decreases |pending|
  {
    if |pending| == 0 then []
    else WithoutId(pending[..|pending| - 1], id) + (if pending[|pending| - 1].id == id then [] else [pending[|pending| - 1]])
  }

  /** `pendingFiles.findIndex(p => p && p.id === id)` */
  function FindIndex(pending: seq<PendingFile>, id: nat): (k: int)
    ensures -1 <= k < |pending|
    ensures k >= 0 ==> pending[k].id == id && forall j :: 0 <= j < k ==> pending[j].id != id
    ensures k == -1 ==> forall j :: 0 <= j < |pending| ==> pending[j].id != id
    decreases |pending|
  {
    if |pending| == 0 then -1
    else if pending[0].id == id then 0
    else
      var k := FindIndex(pending[1..], id);
      if k == -1 then -1 else k + 1
  }

  lemma {:induction false} PendingTotalAppend(a: seq<PendingFile>, b: seq<PendingFile>)
    ensures PendingTotal(a + b) == PendingTotal(a) + PendingTotal(b)
    decreases |b|
  {
    if |b| == 0 {
      assert a + b == a;
    } else {
      PendingTotalAppend(a, b[..|b| - 1]);
      assert (a + b)[..|a + b| - 1] == a + b[..|b| - 1];
    }
  }

  lemma {:induction false} WithoutAbsent(pending: seq<PendingFile>, id: nat)
    requires forall j :: 0 <= j < |pending| ==> pending[j].id != id
    ensures WithoutId(pending, id) == pending
    decreases |pending|
  {
    if |pending| > 0 {
      WithoutAbsent(pending[..|pending| - 1], id);
    }
  }

  lemma {:induction false} WithoutAppend(a: seq<PendingFile>, b: seq<PendingFile>, id: nat)
    ensures WithoutId(a + b, id) == WithoutId(a, id) + WithoutId(b, id)
    decreases |b|
  {
    if |b| == 0 {
      assert a + b == a;
    } else {
      WithoutAppend(a, b[..|b| - 1], id);
      assert (a + b)[..|a + b| - 1] == a + b[..|b| - 1];
    }
  }

  /** Removing the single entry of a chip is removing it by id. */
  lemma RemoveSingle(a: seq<PendingFile>, x: PendingFile, b: seq<PendingFile>)
    requires forall j :: 0 <= j < |a| ==> a[j].id != x.id
    requires forall j :: 0 <= j < |b| ==> b[j].id != x.id
    ensures WithoutId(a + [x] + b, x.id) == a + b
  {
    var ax := a + [x];
    WithoutAbsent(a, x.id);
    WithoutAbsent(b, x.id);
    WithoutAppend(ax, b, x.id);
    WithoutAppend(a, [x], x.id);
    assert WithoutId([x], x.id) == [] by {
      assert [x][..0] == [];
    }
    assert WithoutId(ax, x.id) == a;
  }

  lemma TotalWithout(a: seq<PendingFile>, x: PendingFile, b: seq<PendingFile>)
    ensures PendingTotal(a + [x] + b) == PendingTotal(a + b) + x.size
  {
    PendingTotalAppend(a + [x], b);
    PendingTotalAppend(a, [x]);
    PendingTotalAppend(a, b);
    assert [x][..0] == [];
  }

  /** With unique ids, `splice(findIndex(...), 1)` removes exactly the entries of chip `id`, and the
      pending total drops by that entry's size. */
  lemma SpliceRemovesId(pending: seq<PendingFile>, id: nat)
    requires UniqueIds(pending)
    ensures FindIndex(pending, id) >= 0 ==>
      pending[..FindIndex(pending, id)] + pending[FindIndex(pending, id) + 1..] == WithoutId(pending, id)
      && PendingTotal(WithoutId(pending, id)) + pending[FindIndex(pending, id)].size == PendingTotal(pending)
    ensures FindIndex(pending, id) < 0 ==> WithoutId(pending, id) == pending
  {
    var k := FindIndex(pending, id);
    if k < 0 {
      WithoutAbsent(pending, id);
    } else {
      var a, x, b := pending[..k], pending[k], pending[k + 1..];
      assert pending == a + [x] + b;
      forall j | 0 <= j < |b|
        ensures b[j].id != x.id
      {
        assert b[j] == pending[k + 1 + j];
      }
      RemoveSingle(a, x, b);
      TotalWithout(a, x, b);
    }
  }

  // ----- a selection's effect on the tray -----

  /** An upload started for an admitted file, waiting to settle. */
  datatype Upload = Upload(file: FileInfo, kind: Kind)

  /** The part of the tray a selection changes: the verdicts so far, the next chip id, the chips
      still alive, and the uploads in flight. */
  datatype Selection = Selection(verdicts: seq<Verdict>, nextId: nat, alive: set<nat>, uploads: map<nat, Upload>)

  /** The effect of one verdict: an admitted file gets a new chip (alive) and, unless it falls
      into the fallback branch, an upload in flight. */
  function SelectOne(f: FileInfo, v: Verdict, s: Selection): (r: Selection)
    ensures r.verdicts == s.verdicts + [v]
    ensures r.nextId == s.nextId + (if v.Accepted? then 1 else 0)
    ensures r.alive == s.alive + (if v.Accepted? then {s.nextId} else {})
    ensures r.uploads == if v.Accepted? && v.kind != NoUpload then s.uploads[s.nextId := Upload(f, v.kind)] else s.uploads
  {
    if !v.Accepted? then s.(verdicts := s.verdicts + [v])
    else Selection(s.verdicts + [v], s.nextId + 1, s.alive + {s.nextId},
                   if v.kind == NoUpload then s.uploads else s.uploads[s.nextId := Upload(f, v.kind)])
  }

  /** The body of `selected.forEach`, file by file: an admitted file gets a new chip (alive) and,
      unless it falls into the fallback branch, an upload. */
  function SelectFrom(files: seq<FileInfo>, pendingTotal: nat, acceptedBytes: nat, s: Selection): Selection
    decreases |files|
  {
    if |files| == 0 then s
    else
      var f := files[0];
      var v := Admit(f, pendingTotal, acceptedBytes);
      SelectFrom(files[1..], pendingTotal, acceptedBytes + (if v.Accepted? then f.size else 0), SelectOne(f, v, s))
  }

  lemma SelectFromUnfold(files: seq<FileInfo>, i: nat, pendingTotal: nat, acceptedBytes: nat, s: Selection)
    requires i < |files|
    ensures SelectFrom(files[i..], pendingTotal, acceptedBytes, s)
         == SelectFrom(files[i + 1..], pendingTotal,
                       acceptedBytes + (if Admit(files[i], pendingTotal, acceptedBytes).Accepted? then files[i].size else 0),
                       SelectOne(files[i], Admit(files[i], pendingTotal, acceptedBytes), s))
  {
    assert files[i..][1..] == files[i + 1..];
  }

  /** The selection's verdicts are those of Verdicts. */
  lemma {:induction false} SelectFromVerdicts(files: seq<FileInfo>, pendingTotal: nat, acceptedBytes: nat, s: Selection)
    ensures SelectFrom(files, pendingTotal, acceptedBytes, s).verdicts == s.verdicts + Verdicts(files, pendingTotal, acceptedBytes)
    decreases |files|
  {
    if |files| > 0 {
      var f := files[0];
      var v := Admit(f, pendingTotal, acceptedBytes);
      var next := SelectOne(f, v, s);
      var bytes := acceptedBytes + (if v.Accepted? then f.size else 0);
      SelectFromVerdicts(files[1..], pendingTotal, bytes, next);
      assert s.verdicts + Verdicts(files, pendingTotal, acceptedBytes) == next.verdicts + Verdicts(files[1..], pendingTotal, bytes);
    }
  }

  /** A selection only adds chip ids from `s.nextId` on, and keeps the uploads below it. */
  lemma {:induction false} SelectFromIds(files: seq<FileInfo>, pendingTotal: nat, acceptedBytes: nat, s: Selection)
    ensures SelectFrom(files, pendingTotal, acceptedBytes, s).nextId >= s.nextId
    ensures forall id :: id in SelectFrom(files, pendingTotal, acceptedBytes, s).uploads ==>
              (id in s.uploads && SelectFrom(files, pendingTotal, acceptedBytes, s).uploads[id] == s.uploads[id])
              || s.nextId <= id < SelectFrom(files, pendingTotal, acceptedBytes, s).nextId
    ensures forall id :: id in s.uploads && id < s.nextId ==> id in SelectFrom(files, pendingTotal, acceptedBytes, s).uploads
    decreases |files|
  {
    if |files| > 0 {
      var f := files[0];
      var v := Admit(f, pendingTotal, acceptedBytes);
      SelectFromIds(files[1..], pendingTotal, acceptedBytes + (if v.Accepted? then f.size else 0), SelectOne(f, v, s));
    }
  }

  /** Four 8 MiB PDFs picked together fill the per-message limit exactly, and are all admitted. */
  lemma FourEightMiBPdfs(g: FileInfo)
    requires Extension(g.name) == "pdf" && g.size == 8 * 1024 * 1024
    ensures Verdicts([g, g, g, g], 0, 0) == [Accepted(PdfUpload), Accepted(PdfUpload), Accepted(PdfUpload), Accepted(PdfUpload)]
  {
    var a := Accepted(PdfUpload);
    assert Admit(g, 0, 0) == a && Admit(g, 0, g.size) == a && Admit(g, 0, 2 * g.size) == a && Admit(g, 0, 3 * g.size) == a;
    var four, three, two, one := [g, g, g, g], [g, g, g], [g, g], [g];
    assert four[1..] == three && three[1..] == two && two[1..] == one && |one[1..]| == 0;
    assert Verdicts(one, 0, 3 * g.size) == [a];
    assert Verdicts(two, 0, 2 * g.size) == [a, a];
    assert Verdicts(three, 0, g.size) == [a, a, a];
  }

  lemma FiveTotal(e: nat -> PendingFile, size: nat)
    requires forall k :: e(k).size == size
    ensures PendingTotal([e(0), e(1), e(2), e(3), e(4)]) == 5 * size
  {
    var d5 := [e(0), e(1), e(2), e(3), e(4)];
    var d4, d3, d2, d1 := [e(0), e(1), e(2), e(3)], [e(0), e(1), e(2)], [e(0), e(1)], [e(0)];
    assert d5[..4] == d4 && d4[..3] == d3 && d3[..2] == d2 && d2[..1] == d1 && |d1[..0]| == 0;
    assert PendingTotal(d1) == size;
    assert PendingTotal(d2) == PendingTotal(d1) + size;
    assert PendingTotal(d3) == PendingTotal(d2) + size;
    assert PendingTotal(d4) == PendingTotal(d3) + size;
    assert PendingTotal(d5) == PendingTotal(d4) + size;
  }

  /** Only completed uploads count towards the per-message limit: four 8 MiB PDFs fill a
      selection, and a fifth picked while they are still uploading is admitted again, so once all
      five complete the pending list holds 40 MiB. */
  lemma InFlightUploadsNotCounted(name: string, url: string)
    requires EndsWith(LowerAscii(name), ".pdf")
    ensures var g := FileInfo(name, PdfMime, 8 * 1024 * 1024);
      && Verdicts([g, g, g, g], PendingTotal([]), 0) == [Accepted(PdfUpload), Accepted(PdfUpload), Accepted(PdfUpload), Accepted(PdfUpload)]
      && Verdicts([g], PendingTotal([]), 0) == [Accepted(PdfUpload)]
      && PendingTotal([PendingFile(0, name, url, url, g.size), PendingFile(1, name, url, url, g.size),
                       PendingFile(2, name, url, url, g.size), PendingFile(3, name, url, url, g.size),
                       PendingFile(4, name, url, url, g.size)]) > MaxTotal
  {
    ExtensionIs(name, "pdf");
    var g := FileInfo(name, PdfMime, 8 * 1024 * 1024);
    FourEightMiBPdfs(g);
    assert [g][1..] == [];
    FiveTotal((k: nat) => PendingFile(k, name, url, url, g.size), g.size);
  }
  /** Removing by id keeps every entry of another chip, and nothing of that chip. */
  lemma {:induction false} WithoutIdMembers(pending: seq<PendingFile>, id: nat)
    ensures forall x :: x in WithoutId(pending, id) <==> x in pending && x.id != id
    decreases |pending|
  {
    if |pending| > 0 {
      var init := pending[..|pending| - 1];
      WithoutIdMembers(init, id);
      assert pending == init + [pending[|pending| - 1]];
    }
  }

  lemma RemoveAtKeepsValid(pending: seq<PendingFile>, k: nat, r: seq<PendingFile>, bound: nat, uploads: map<nat, Upload>)
    requires k < |pending| && UniqueIds(pending) && r == pending[..k] + pending[k + 1..]
    requires forall j :: 0 <= j < |pending| ==> pending[j].id < bound && pending[j].id !in uploads
    ensures UniqueIds(r)
    ensures forall j :: 0 <= j < |r| ==> r[j].id < bound && r[j].id !in uploads
  {
    assert forall j :: 0 <= j < |r| ==> r[j] == (if j < k then pending[j] else pending[j + 1]);
  }

  /** The attachment state of the current client: `pendingFiles`, the `alive` flags of the chips,
      the uploads still in flight, and the `uploadedFiles` history. Chip ids are handed out by a
      counter standing in for `crypto.randomUUID`; only their distinctness matters. */
  class Tray {
    var pending: seq<PendingFile>
    var alive: set<nat>
    var uploads: map<nat, Upload>
    var nextId: nat
    var uploaded: seq<string>

    /** Pending entries have distinct ids, issued chips and no upload still in flight; every upload
        in flight belongs to an issued chip. */
    ghost predicate Valid()
      reads this
    {
      && UniqueIds(pending)
      && (forall k :: 0 <= k < |pending| ==> pending[k].id < nextId && pending[k].id !in uploads)
      && (forall id :: id in uploads ==> id < nextId)
    }

    constructor ()
      ensures Valid()
      ensures pending == [] && alive == {} && uploads == map[] && nextId == 0 && uploaded == []
    {
      pending, alive, uploads, nextId, uploaded := [], {}, map[], 0, [];
    }

    /** The body of `selected.forEach` for one file, with `selectionBytesAccepted` admitted so far:
        the three checks in order, then a chip and, by the extension, a PDF upload, a DOCX upload,
        or nothing. */
    method Consider(file: FileInfo, selectionBytesAccepted: nat) returns (verdict: Verdict, accepted: nat)
      requires Valid()
      modifies this
      ensures Valid()
      ensures verdict == Admit(file, PendingTotal(old(pending)), selectionBytesAccepted)
      ensures accepted == selectionBytesAccepted + (if verdict.Accepted? then file.size else 0)
      ensures Selection([verdict], nextId, alive, uploads) == SelectOne(file, verdict, Selection([], old(nextId), old(alive), old(uploads)))
      ensures pending == old(pending) && uploaded == old(uploaded)
    {
      accepted := selectionBytesAccepted;
      var alreadyPending := PendingTotal(pending);
      if !IsAllowedFile(file) {
        verdict := WrongType;
      } else if file.size > MaxPerFile {
        verdict := TooLarge;
      } else if alreadyPending + selectionBytesAccepted + file.size > MaxTotal {
        verdict := OverTotal;
      } else {
        var id := nextId;
        nextId := nextId + 1;
        alive := alive + {id};
        var ext := Extension(file.name);
        accepted := accepted + file.size;
        if ext == "pdf" {
          uploads := uploads[id := Upload(file, PdfUpload)];
          verdict := Accepted(PdfUpload);
        } else if ext == "docx" {
          uploads := uploads[id := Upload(file, DocxUpload)];
          verdict := Accepted(DocxUpload);
        } else {
          verdict := Accepted(NoUpload);
        }
      }
    }

    /** The `fileInput` change handler: each picked file is considered in turn. */
    method Select(files: seq<FileInfo>) returns (verdicts: seq<Verdict>)
      requires Valid()
      modifies this
      ensures Valid()
      ensures Selection(verdicts, nextId, alive, uploads)
           == SelectFrom(files, PendingTotal(old(pending)), 0, Selection([], old(nextId), old(alive), old(uploads)))
      ensures pending == old(pending) && uploaded == old(uploaded)
    {
      var selectionBytesAccepted: nat := 0;
      verdicts := [];
      var i := 0;
      while i < |files|
        invariant 0 <= i <= |files|
        invariant Valid()
        invariant pending == old(pending) && uploaded == old(uploaded)
        invariant SelectFrom(files[i..], PendingTotal(pending), selectionBytesAccepted, Selection(verdicts, nextId, alive, uploads))
               == SelectFrom(files, PendingTotal(old(pending)), 0, Selection([], old(nextId), old(alive), old(uploads)))
      {
        ghost var before := Selection(verdicts, nextId, alive, uploads);
        SelectFromUnfold(files, i, PendingTotal(pending), selectionBytesAccepted, before);
        var verdict;
        verdict, selectionBytesAccepted := Consider(files[i], selectionBytesAccepted);
        verdicts := verdicts + [verdict];
        i := i + 1;
      }
    }

    /** A PDF upload resolved with `url`: if the chip is still alive, its entry joins the pending
        list (the same URL to show and to send) and the URL is recorded. */
    method PdfUploaded(id: nat, url: string)
      requires Valid() && id in uploads && uploads[id].kind == PdfUpload
      modifies this
      ensures Valid()
      ensures uploads == old(uploads) - {id} && alive == old(alive) && nextId == old(nextId)
      ensures id in alive ==>
        pending == old(pending) + [PendingFile(id, old(uploads)[id].file.name, url, url, old(uploads)[id].file.size)]
        && uploaded == old(uploaded) + [url]
      ensures id !in alive ==> pending == old(pending) && uploaded == old(uploaded)
    {
      var file := uploads[id].file;
      uploads := uploads - {id};
      if id in alive {
        pending := pending + [PendingFile(id, file.name, url, url, file.size)];
        uploaded := uploaded + [url];
      }
    }

    /** A DOCX upload and its conversion resolved: if the chip is still alive, its entry joins the
        pending list showing the DOCX, sending the PDF, with the size of the original file. */
    method DocxConverted(id: nat, docxUrl: string, pdfUrl: string)
      requires Valid() && id in uploads && uploads[id].kind == DocxUpload
      modifies this
      ensures Valid()
      ensures uploads == old(uploads) - {id} && alive == old(alive) && nextId == old(nextId)
      ensures id in alive ==>
        pending == old(pending) + [PendingFile(id, old(uploads)[id].file.name, docxUrl, pdfUrl, old(uploads)[id].file.size)]
        && uploaded == old(uploaded) + [docxUrl, pdfUrl]
      ensures id !in alive ==> pending == old(pending) && uploaded == old(uploaded)
    {
      var file := uploads[id].file;
      uploads := uploads - {id};
      if id in alive {
        pending := pending + [PendingFile(id, file.name, docxUrl, pdfUrl, file.size)];
        uploaded := uploaded + [docxUrl, pdfUrl];
      }
    }

    /** An upload or conversion failed: the upload settles and nothing joins the pending list. */
    method UploadFailed(id: nat)
      requires Valid() && id in uploads
      modifies this
      ensures Valid()
      ensures uploads == old(uploads) - {id}
      ensures pending == old(pending) && alive == old(alive) && nextId == old(nextId) && uploaded == old(uploaded)
    {
      uploads := uploads - {id};
    }

    /** The chip's remove button (`handle.remove()`): the chip is no longer alive and its entry, if
        its upload already completed, leaves the pending list. */
    method Remove(id: nat)
      requires Valid()
      modifies this
      ensures Valid()
      ensures alive == old(alive) - {id}
      ensures pending == WithoutId(old(pending), id)
      ensures uploads == old(uploads) && nextId == old(nextId) && uploaded == old(uploaded)
    {
      alive := alive - {id};
      var i := FindIndex(pending, id);
      SpliceRemovesId(pending, id);
      if i > -1 {
        RemoveAtKeepsValid(pending, i, pending[..i] + pending[i + 1..], nextId, uploads);
        pending := pending[..i] + pending[i + 1..];
      }
    }

    /** `pendingFiles.length = 0` once a send has taken the pending files. Chips keep their alive
        flags, so an upload still in flight lands in the next message's pending list. */
    method ClearPending()
      requires Valid()
      modifies this
      ensures Valid()
      ensures pending == [] && alive == old(alive) && uploads == old(uploads)
      ensures nextId == old(nextId) && uploaded == old(uploaded)
    {
      pending := [];
    }
  }
}
