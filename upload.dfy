/** server/middleware/upload.js: the multer configuration of the upload route. A file is accepted
    when its extension contains an allowed token, up to 50 MiB, and is stored under a fresh name
    that keeps its original extension. */
module Upload {
  import opened Wrappers
  import opened Text

  /** The alternatives of the extension pattern, in its order. */
  const AllowedTokens: seq<string> :=
    ["jpeg", "jpg", "png", "gif", "webp", "mp4", "webm", "mp3", "wav", "pdf", "doc", "docx", "xls", "xlsx", "zip"]

  /** `limits.fileSize`: 50 * 1024 * 1024 bytes. */
  const MaxFileSize: nat := 50 * 1024 * 1024

  /** The last position of `c` in `s`. */
  function LastIndexOf(s: string, c: char): (r: Option<nat>)
    ensures r.Some? ==> r.value < |s| && s[r.value] == c && forall j :: r.value < j < |s| ==> s[j] != c
    ensures r.None? <==> forall j :: 0 <= j < |s| ==> s[j] != c
  {
    if s == [] then None
    else if s[|s| - 1] == c then Some(|s| - 1)
    else LastIndexOf(s[..|s| - 1], c)
  }

  /** The position satisfying the characterisation of `LastIndexOf` is the one it returns. */
  lemma LastIndexOfIs(s: string, c: char, k: nat)
    requires k < |s| && s[k] == c && forall j :: k < j < |s| ==> s[j] != c
    ensures LastIndexOf(s, c) == Some(k)
  {
  }

  /** The path without its trailing separators. */
  function StripTrailingSlashes(p: string): (r: string)
    ensures r <= p
    ensures forall i :: |r| <= i < |p| ==> p[i] == '/'
    ensures r != [] ==> r[|r| - 1] != '/'
  {
    if p != [] && p[|p| - 1] == '/' then StripTrailingSlashes(p[..|p| - 1]) else p
  }

  /** The last path segment, ignoring trailing separators. */
  function BaseName(p: string): (r: string)
    ensures '/' !in r
  {
    var t := StripTrailingSlashes(p);
    match LastIndexOf(t, '/')
    case None => t
    case Some(i) => t[i + 1..]
  }

  /** The extension of a last segment: from its last '.' to its end, or empty when it has no '.',
      when that '.' is its first character, or when the segment is "..". */
  function BaseExtension(b: string): (r: string)
    ensures r == [] || (r[0] == '.' && forall i :: 0 < i < |r| ==> r[i] != '.')
    ensures forall x :: x in r ==> x in b
  {
    match LastIndexOf(b, '.')
    case None => []
    case Some(d) => if d == 0 || b == ".." then [] else b[d..]
  }

  /** `path.extname` with POSIX separators. */
  function ExtName(p: string): (r: string)
    ensures r == [] || (r[0] == '.' && forall i :: 0 < i < |r| ==> r[i] != '.')
    ensures '/' !in r
  {
    BaseExtension(BaseName(p))
  }

  /** `path.extname(name).toLowerCase().slice(1)`. */
  function Extension(name: string): (r: string)
  {
    var e := Lower(ExtName(name));
    if e == [] then [] else e[1..]
  }

  /** The `fileFilter`: the pattern is unanchored, so the file passes when some allowed token
      occurs anywhere in its extension. */
  predicate Accepts(name: string)
  {
    HasToken(Extension(name))
  }

  /** The pattern's test: some allowed token occurs in `ext`. */
  predicate HasToken(ext: string)
  {
    exists i :: 0 <= i < |AllowedTokens| && Contains(ext, AllowedTokens[i])
  }

  /** No token occurs in an extension too short to hold one, or in one such as "txt". */
  lemma NoToken(ext: string)
    requires |ext| < 3 || ext == "txt"
    ensures !HasToken(ext)
  {
    forall i | 0 <= i < |AllowedTokens| ensures !Contains(ext, AllowedTokens[i]) {
      assert |AllowedTokens[i]| >= 3 && AllowedTokens[i] != "txt";
      ContainsLong(ext, AllowedTokens[i]);
    }
  }

  /** A file whose name has no '.' is refused: its extension is empty and holds no token. */
  lemma NoExtensionRejected(name: string)
    requires '.' !in name
    ensures Extension(name) == []
    ensures !Accepts(name)
  {
    var t := StripTrailingSlashes(name);
    assert '.' !in t by { assert t == name[..|t|]; }
    match LastIndexOf(t, '/')
    case None =>
    case Some(i) => assert '.' !in t[i + 1..];
    NoToken([]);
  }

  /** The extension of a plain name is what follows its last '.'. */
  lemma PlainExtension(s: string, d: nat)
    requires 0 < d < |s| && s[0] != '.' && '/' !in s
    requires s[d] == '.' && forall j :: d < j < |s| ==> s[j] != '.'
    ensures ExtName(s) == s[d..]
  {
    assert StripTrailingSlashes(s) == s;
    assert LastIndexOf(s, '/') == None;
    LastIndexOfIs(s, '.', d);
    assert s != "..";
  }

  /** The filter's view of a plain name: the lower-cased text after its last '.'. */
  lemma ExtensionIs(s: string, d: nat)
    requires 0 < d < |s| && s[0] != '.' && '/' !in s
    requires s[d] == '.' && forall j :: d < j < |s| ==> s[j] != '.'
    ensures Extension(s) == Lower(s[d + 1..])
  {
    PlainExtension(s, d);
    assert Lower(s[d..])[1..] == Lower(s[d + 1..]);
  }

  /** An extension with "pdf" at some offset matches the pattern. */
  lemma HasPdf(ext: string, k: nat)
    requires k + 3 <= |ext| && "pdf" <= ext[k..]
    ensures HasToken(ext)
  {
    assert AllowedTokens[9] == "pdf";
    ContainsAt(ext, "pdf");
  }

  /** A file name stem holding neither '.' nor '/'. */
  predicate PlainStem(stem: string)
  {
    stem != [] && '.' !in stem && '/' !in stem
  }

  /** The filter sees the lower-cased text after the '.' that starts `ext` in `stem + ext`. */
  lemma StemExtension(stem: string, ext: string)
    requires PlainStem(stem) && ext != [] && ext[0] == '.' && '.' !in ext[1..] && '/' !in ext
    ensures Extension(stem + ext) == Lower(ext[1..])
  {
    var s := stem + ext;
    var d := |stem|;
    assert s[0] == stem[0];
    forall j | d < j < |s| ensures s[j] != '.' {
      assert s[j] == ext[1..][j - d - 1];
    }
    forall x | x in s ensures x != '/' {
      var k :| 0 <= k < |s| && s[k] == x;
      if k < d { assert x == stem[k]; } else { assert x == ext[k - d]; }
    }
    ExtensionIs(s, d);
    assert s[d + 1..] == ext[1..];
  }

  /** Because the pattern is unanchored, an extension that merely contains a token passes:
      any plain stem with the extension ".xpdfz" is accepted. */
  lemma UnanchoredMatch(stem: string)
    requires PlainStem(stem)
    ensures Extension(stem + ".xpdfz") == "xpdfz" && Accepts(stem + ".xpdfz")
  {
    assert ".xpdfz"[1..] == "xpdfz";
    assert Lower("xpdfz") == "xpdfz";
    StemExtension(stem, ".xpdfz");
    assert "pdf" <= "xpdfz"[1..];
    HasPdf("xpdfz", 1);
  }

  /** Upper-case extensions pass: the name is lower-cased before the test. */
  lemma UpperCaseAccepted(stem: string)
    requires PlainStem(stem)
    ensures Extension(stem + ".PDF") == "pdf" && Accepts(stem + ".PDF")
  {
    assert ".PDF"[1..] == "PDF";
    assert Lower("PDF") == "pdf";
    StemExtension(stem, ".PDF");
    HasPdf("pdf", 0);
  }

  /** An extension holding no token is refused. */
  lemma TxtRefused(stem: string)
    requires PlainStem(stem)
    ensures Extension(stem + ".txt") == "txt" && !Accepts(stem + ".txt")
  {
    assert ".txt"[1..] == "txt";
    assert Lower("txt") == "txt";
    StemExtension(stem, ".txt");
    NoToken("txt");
  }

  /** `Lower` keeps every '.' and '/' where it was and introduces no new one. */
  lemma LowerKeepsSeparator(s: string, c: char)
    requires c == '.' || c == '/'
    ensures LastIndexOf(Lower(s), c) == LastIndexOf(s, c)
  {
    var l := Lower(s);
    assert forall j :: 0 <= j < |s| ==> (l[j] == c <==> s[j] == c);
    var a, b := LastIndexOf(l, c), LastIndexOf(s, c);
    if b.Some? {
      LastIndexOfIs(l, c, b.value);
    }
  }

  lemma {:induction false} StripLower(s: string)
    ensures StripTrailingSlashes(Lower(s)) == Lower(StripTrailingSlashes(s))
  {
    if s != [] && s[|s| - 1] == '/' {
      assert Lower(s)[..|s| - 1] == Lower(s[..|s| - 1]);
      StripLower(s[..|s| - 1]);
    }
  }

  lemma BaseNameLower(p: string)
    ensures BaseName(Lower(p)) == Lower(BaseName(p))
  {
    var t := StripTrailingSlashes(p);
    StripLower(p);
    LowerKeepsSeparator(t, '/');
    match LastIndexOf(t, '/')
    case None =>
    case Some(i) => LowerSuffix(t, i + 1);
  }

  /** Lower-casing commutes with dropping a prefix. */
  lemma LowerSuffix(s: string, k: nat)
    requires k <= |s|
    ensures Lower(s)[k..] == Lower(s[k..])
  {
  }

  lemma BaseExtensionLower(b: string)
    ensures BaseExtension(Lower(b)) == Lower(BaseExtension(b))
  {
    LowerKeepsSeparator(b, '.');
    match LastIndexOf(b, '.')
    case None =>
    case Some(d) =>
      if Lower(b) == ".." {
        assert b[0] == '.' && b[1] == '.';
        assert b == "..";
      }
      LowerSuffix(b, d);
  }

  /** The filter ignores the case of the name: a name and its lower-cased form are treated alike. */
  lemma AcceptsIgnoresCase(name: string)
    ensures Extension(Lower(name)) == Extension(name)
    ensures Accepts(Lower(name)) <==> Accepts(name)
  {
    BaseNameLower(name);
    BaseExtensionLower(BaseName(name));
    LowerIdempotent(ExtName(name));
  }

  /** The size limit: a file up to exactly 52428800 bytes passes, a larger one is cut off. */
  predicate WithinLimit(size: nat)
  {
    size <= MaxFileSize
  }

  lemma SizeLimit()
    ensures WithinLimit(52428800) && !WithinLimit(52428801)
  {
  }

  /** The `filename` callback: `<timestamp>-<random><extension of the original name>`, with the
      clock reading and the random draw passed in. */
  function StoredName(now: nat, rand: nat, originalName: string): (r: string)
  {
    Decimal(now) + "-" + Decimal(rand) + ExtName(originalName)
  }

  /** The prefix of a stored name holds digits and one '-', so neither '.' nor '/'. */
  lemma StampPlain(now: nat, rand: nat)
    ensures var p := Decimal(now) + "-" + Decimal(rand);
      p != [] && p[0] != '.' && '.' !in p && '/' !in p
  {
    var a, b := Decimal(now), Decimal(rand);
    var p := a + "-" + b;
    forall i | 0 <= i < |p| ensures IsDigit(p[i]) || p[i] == '-' {
      if i < |a| { assert p[i] == a[i]; }
      else if i > |a| { assert p[i] == b[i - |a| - 1]; }
    }
  }

  /** An extension appended to a plain stem is the extension of the whole name. */
  lemma AppendExtension(p: string, e: string)
    requires p != [] && p[0] != '.' && '.' !in p && '/' !in p
    requires e != [] && e[0] == '.' && '/' !in e && forall i :: 0 < i < |e| ==> e[i] != '.'
    ensures ExtName(p + e) == e
  {
    var s := p + e;
    forall j | |p| < j < |s| ensures s[j] != '.' {
      assert s[j] == e[j - |p|];
    }
    forall x | x in s ensures x != '/' {
      var k :| 0 <= k < |s| && s[k] == x;
      if k < |p| { assert x == p[k]; } else { assert x == e[k - |p|]; }
    }
    PlainExtension(s, |p|);
    assert s[|p|..] == e;
  }

  /** The stored file keeps the extension of the uploaded one. */
  lemma StoredNameKeepsExtension(now: nat, rand: nat, originalName: string)
    ensures ExtName(StoredName(now, rand, originalName)) == ExtName(originalName)
  {
    var p := Decimal(now) + "-" + Decimal(rand);
    var e := ExtName(originalName);
    StampPlain(now, rand);
    if e == [] {
      assert p + e == p;
      assert StripTrailingSlashes(p) == p;
      assert LastIndexOf(p, '/') == None;
      assert LastIndexOf(p, '.') == None;
    } else {
      AppendExtension(p, e);
    }
  }

  /** Why multer refuses a file. */
  datatype UploadError = FileTypeNotAllowed | FileTooLarge

  /** A file multer has stored: the name it was stored under, the client's name and the size. */
  datatype StoredFile = StoredFile(filename: string, originalName: string, size: nat)

  /** What `upload.single('file')` does with one incoming file: the type filter first, then the
      size limit while receiving, then the file is stored under its new name. */
  function Receive(originalName: string, size: nat, now: nat, rand: nat): (r: Result<StoredFile, UploadError>)
    ensures r.Success? <==> Accepts(originalName) && WithinLimit(size)
    ensures r == Failure(FileTypeNotAllowed) <==> !Accepts(originalName)
    ensures r.Success? ==>
      && r.value.originalName == originalName && r.value.size == size
      && ExtName(r.value.filename) == ExtName(originalName)
  {
    StoredNameKeepsExtension(now, rand, originalName);
    if !Accepts(originalName) then Failure(FileTypeNotAllowed)
    else if !WithinLimit(size) then Failure(FileTooLarge)
    else Success(StoredFile(StoredName(now, rand, originalName), originalName, size))
  }
}
