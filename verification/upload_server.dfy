/**
 * The string logic of the upload server (PruebasV4_Servidor.py): the
 * file-extension filter `allowed_file`, the validation cascade at the head of
 * the `/subir_imagen` route, and the `postgres://` scheme rewrite applied to
 * `DATABASE_URL` at start-up. Flask, SQLAlchemy, Cloudinary and e-mail are
 * not part of this model.
 */
module UploadServer {
  import opened Wrappers

  // ---------------------------------------------------------------------------
  // Allowed extensions
  // ---------------------------------------------------------------------------

  /** `app.config['ALLOWED_EXTENSIONS']`. */
  const AllowedExtensions: set<string> := {"png", "jpg", "jpeg", "gif"}

  lemma AllowedExtensionsMembers(e: string)
    ensures e in AllowedExtensions <==> e == "png" || e == "jpg" || e == "jpeg" || e == "gif"
  {
  }

  /** Index of the last occurrence of `c` in `s`, or -1 when there is none. */
  function LastIndexOf(s: string, c: char): (k: int)
    ensures -1 <= k < |s|
    ensures k == -1 <==> c !in s
    ensures 0 <= k ==> s[k] == c
    ensures forall j :: k < j < |s| ==> s[j] != c
  {
    if s == [] then -1
    else if s[|s| - 1] == c then |s| - 1
    else LastIndexOf(s[..|s| - 1], c)
  }

  /** Python's `s.rsplit(sep, 1)`: split once, at the last separator. */
  function RSplitOnce(s: string, sep: char): (parts: seq<string>)
    ensures sep !in s ==> parts == [s]
    ensures sep in s ==> |parts| == 2 && parts[0] + [sep] + parts[1] == s && sep !in parts[1]
  {
    var k := LastIndexOf(s, sep);
    if k < 0 then [s]
    else
      assert s[..k] + [sep] + s[k + 1..] == s;
      [s[..k], s[k + 1..]]
  }

  /** `str.lower()` restricted to ASCII: 'A'..'Z' become 'a'..'z'. */
  function LowerChar(c: char): char
  {
    if 'A' <= c <= 'Z' then (c as int + 32) as char else c
  }

  function Lower(s: string): (r: string)
    ensures |r| == |s|
    ensures forall i :: 0 <= i < |s| ==> r[i] == LowerChar(s[i])
  {
    if s == [] then [] else [LowerChar(s[0])] + Lower(s[1..])
  }

  /** `allowed_file`: a dot is present and the text after the last dot,
      lower-cased, is an allowed extension. The `and` short-circuits, so
      `rsplit(...)[1]` is only read when a dot exists. */
  predicate AllowedFile(filename: string): (ok: bool)
    ensures ok ==> '.' in filename && 3 <= |filename| - 1 - LastIndexOf(filename, '.') <= 4
  {
    var ok := '.' in filename && Lower(RSplitOnce(filename, '.')[1]) in AllowedExtensions;
    if ok then
      AllowedExtensionsMembers(Lower(RSplitOnce(filename, '.')[1]));
      ok
    else ok
  }

  /** The separator placed between `a` and a separator-free `b` is the last one. */
  lemma {:induction false} LastIndexOfJoin(a: string, b: string, sep: char)
    requires sep !in b
    ensures LastIndexOf(a + [sep] + b, sep) == |a|
    decreases |b|
  {
    if b != [] {
      var b' := b[..|b| - 1];
      assert b[|b| - 1] in b;
      assert (a + [sep] + b)[..|a| + |b|] == a + [sep] + b';
      assert sep !in b' by { assert forall x :: x in b' ==> x in b; }
      LastIndexOfJoin(a, b', sep);
    }
  }

  /** Only the text after the last dot is inspected; whatever precedes that
      dot (even nothing, or further dots) is irrelevant. */
  lemma AllowedFileBySuffix(prefix: string, ext: string)
    requires '.' !in ext
    ensures AllowedFile(prefix + "." + ext) <==> Lower(ext) in AllowedExtensions
  {
    var s := prefix + "." + ext;
    LastIndexOfJoin(prefix, ext, '.');
    assert s[|prefix| + 1..] == ext;
  }

  /** A name without a dot is always rejected. */
  lemma NoDotRejected(filename: string)
    requires '.' !in filename
    ensures !AllowedFile(filename)
  {
  }

  /** A name ending in a dot has an empty suffix and is rejected. */
  lemma TrailingDotRejected(prefix: string)
    ensures !AllowedFile(prefix + ".")
  {
    AllowedFileBySuffix(prefix, "");
    assert prefix + "." + "" == prefix + ".";
  }

  /** The four accepted extensions, in any ASCII letter case, and nothing else:
      `ext` is accepted exactly when its lower-case form is one of them. */
  lemma AcceptedExtensions(prefix: string, ext: string)
    requires '.' !in ext
    ensures AllowedFile(prefix + "." + ext) <==>
              Lower(ext) == "png" || Lower(ext) == "jpg" || Lower(ext) == "jpeg" || Lower(ext) == "gif"
  {
    AllowedFileBySuffix(prefix, ext);
    AllowedExtensionsMembers(Lower(ext));
  }

  lemma {:induction false} LowerIdempotent(s: string)
    ensures Lower(Lower(s)) == Lower(s)
  {
    if s != [] {
      LowerIdempotent(s[1..]);
      assert Lower(s)[1..] == Lower(s[1..]);
    }
  }

  lemma LowerKeepsDots(s: string)
    ensures '.' in Lower(s) <==> '.' in s
  {
    if '.' in s {
      var i :| 0 <= i < |s| && s[i] == '.';
      assert Lower(s)[i] == '.';
    }
    if '.' in Lower(s) {
      var i :| 0 <= i < |s| && Lower(s)[i] == '.';
      assert s[i] == '.';
    }
  }

  lemma LowerConcat(a: string, b: string)
    ensures Lower(a + b) == Lower(a) + Lower(b)
  {
  }

  /** The check is case-insensitive: lower-casing the whole name first does
      not change the verdict. */
  lemma AllowedFileCaseInsensitive(filename: string)
    ensures AllowedFile(Lower(filename)) == AllowedFile(filename)
  {
    LowerKeepsDots(filename);
    if '.' in filename {
      var parts := RSplitOnce(filename, '.');
      var prefix, ext := parts[0], parts[1];
      assert filename == prefix + "." + ext;
      LowerConcat(prefix + ".", ext);
      LowerConcat(prefix, ".");
      assert Lower(".") == ".";
      assert Lower(filename) == Lower(prefix) + "." + Lower(ext);
      LowerKeepsDots(ext);
      AllowedFileBySuffix(prefix, ext);
      AllowedFileBySuffix(Lower(prefix), Lower(ext));
      LowerIdempotent(ext);
    }
  }

  /** Only the last suffix counts: a `.png` before `.exe` does not help. */
  lemma DoubleExtensionRejected()
    ensures !AllowedFile("a.png.exe")
  {
    AcceptedExtensions("a.png", "exe");
    assert "a.png" + "." + "exe" == "a.png.exe";
    assert Lower("exe")[0] == 'e';
  }

  /** Only the last suffix counts: a `.bak` before `.jpg` does not hurt. */
  lemma BackupStemAccepted()
    ensures AllowedFile("a.bak.jpg")
  {
    AcceptedExtensions("a.bak", "jpg");
    assert "a.bak" + "." + "jpg" == "a.bak.jpg";
    assert Lower("jpg") == "jpg";
  }

  /** An upper-case extension is accepted. */
  lemma UpperCaseExample()
    ensures AllowedFile("X.JPEG")
  {
    AcceptedExtensions("X", "JPEG");
    assert "X" + "." + "JPEG" == "X.JPEG";
    var e := Lower("JPEG");
    assert e[0] == 'j' && e[1] == 'p' && e[2] == 'e' && e[3] == 'g';
    assert e == "jpeg";
  }

  /** The part before the last dot may be empty. */
  lemma EmptyStemExample()
    ensures AllowedFile(".png")
  {
    AcceptedExtensions("", "png");
    assert "" + "." + "png" == ".png";
    assert Lower("png") == "png";
  }

  // ---------------------------------------------------------------------------
  // Validation cascade of the upload route
  // ---------------------------------------------------------------------------

  /** The part of Werkzeug's `FileStorage` that validation reads. */
  datatype FileStorage = FileStorage(filename: string)

  /** How validation ends: an early 400 response with its error text, or the
      upload proceeds with the submitted file. */
  datatype UploadCheck =
    | Rejected(status: int, error: string)
    | Accepted(file: FileStorage)

  const MsgNoFile := "No se encontró ningún archivo"
  const MsgEmptyName := "Nombre de archivo vacío"
  const MsgBadFormat := "Formato de archivo no permitido"

  /** The early returns of `subir_imagen`, in source order; `files` is
      `request.files` keyed by form field name. */
  function ValidateUpload(files: map<string, FileStorage>): (r: UploadCheck)
    ensures r.Accepted? <==> "file" in files && AllowedFile(files["file"].filename)
    ensures r.Accepted? ==> r.file == files["file"] && files["file"].filename != ""
    ensures r.Rejected? ==> r.status == 400
  {
    if "file" !in files then Rejected(400, MsgNoFile)
    else
      var file := files["file"];
      if file.filename == "" then Rejected(400, MsgEmptyName)
      else if !AllowedFile(file.filename) then Rejected(400, MsgBadFormat)
      else Accepted(file)
  }

  /** Which check rejects: a missing field first, then an empty name, then a
      disallowed extension. */
  lemma ValidationOrder(files: map<string, FileStorage>)
    ensures "file" !in files ==> ValidateUpload(files) == Rejected(400, MsgNoFile)
    ensures "file" in files && files["file"].filename == "" ==>
              ValidateUpload(files) == Rejected(400, MsgEmptyName)
    ensures "file" in files && files["file"].filename != "" && !AllowedFile(files["file"].filename) ==>
              ValidateUpload(files) == Rejected(400, MsgBadFormat)
  {
  }

  /** The empty-name test only chooses the error text: the extension filter
      would reject an empty name as well. */
  lemma EmptyNameAlsoFailsExtension()
    ensures !AllowedFile("")
  {
  }

  // ---------------------------------------------------------------------------
  // DATABASE_URL scheme rewrite
  // ---------------------------------------------------------------------------

  const PostgresScheme := "postgres://"
  const PostgresqlScheme := "postgresql://"
  const DefaultDatabaseUrl := "sqlite:///SUDEA-IMG.db"

  /** Python's `s.startswith(p)`. */
  predicate StartsWith(s: string, p: string): (ok: bool)
    ensures ok <==> exists t :: s == p + t
  {
    var ok := |p| <= |s| && s[..|p|] == p;
    if ok then
      assert s == p + s[|p|..];
      ok
    else ok
  }

  /** `pat` occurs somewhere in `s`. */
  predicate Contains(s: string, pat: string)
    decreases |s|
  {
    StartsWith(s, pat) || (s != [] && Contains(s[1..], pat))
  }

  /** Python's `s.replace(pat, repl)`: every non-overlapping occurrence of
      `pat`, scanning left to right, becomes `repl`. */
  function ReplaceAll(s: string, pat: string, repl: string): (r: string)
    requires pat != []
    ensures !Contains(s, pat) ==> r == s
    decreases |s|
  {
    if |s| < |pat| then s
    else if s[..|pat|] == pat then repl + ReplaceAll(s[|pat|..], pat, repl)
    else
      assert [s[0]] + s[1..] == s;
      [s[0]] + ReplaceAll(s[1..], pat, repl)
  }

  /** Lines 17-18: a URL starting with `postgres://` has that scheme (and any
      later copy of the same text) replaced by `postgresql://`; any other URL
      is left alone. */
  function RewriteDatabaseUrl(url: string): (r: string)
    ensures !StartsWith(r, PostgresScheme)
    ensures !StartsWith(url, PostgresScheme) ==> r == url
    ensures StartsWith(url, PostgresScheme) ==> StartsWith(r, PostgresqlScheme)
    ensures StartsWith(url, PostgresScheme) ==> !Contains(r, PostgresScheme)
  {
    if StartsWith(url, PostgresScheme) then
      var r := ReplaceAll(url, PostgresScheme, PostgresqlScheme);
      SchemesAreSafe();
      ReplaceAllLeavesNoOccurrence(url, PostgresScheme, PostgresqlScheme);
      assert r == PostgresqlScheme + ReplaceAll(url[|PostgresScheme|..], PostgresScheme, PostgresqlScheme);
      assert r[8] == 'q';
      r
    else url
  }

  /** Line 16 together with lines 17-18: the environment value, or the local
      SQLite default when the variable is unset, after the rewrite. */
  function DatabaseUrl(env: Option<string>): (r: string)
    ensures env.None? ==> r == DefaultDatabaseUrl
    ensures env.Some? && !StartsWith(env.value, PostgresScheme) ==> r == env.value
    ensures env.Some? ==> r == RewriteDatabaseUrl(env.value)
  {
    assert DefaultDatabaseUrl[0] != PostgresScheme[0];
    RewriteDatabaseUrl(env.GetOr(DefaultDatabaseUrl))
  }

  /** Rewriting twice is the same as rewriting once. */
  lemma RewriteIdempotent(url: string)
    ensures RewriteDatabaseUrl(RewriteDatabaseUrl(url)) == RewriteDatabaseUrl(url)
  {
  }

  /** The usual case: only the scheme changes when the rest of the URL does
      not repeat `postgres://`. */
  lemma RewriteOnlyScheme(rest: string)
    requires !Contains(rest, PostgresScheme)
    ensures RewriteDatabaseUrl(PostgresScheme + rest) == PostgresqlScheme + rest
  {
    var url := PostgresScheme + rest;
    assert url[..|PostgresScheme|] == PostgresScheme;
    assert url[|PostgresScheme|..] == rest;
  }

  /** An occurrence at the front is replaced, and scanning resumes after it. */
  lemma ReplaceAllAtOccurrence(rest: string, pat: string, repl: string)
    requires pat != []
    ensures ReplaceAll(pat + rest, pat, repl) == repl + ReplaceAll(rest, pat, repl)
  {
    assert (pat + rest)[..|pat|] == pat && (pat + rest)[|pat|..] == rest;
  }

  /** Text in which the pattern's first character never appears is copied. */
  lemma {:induction false} ReplaceAllCopies(text: string, rest: string, pat: string, repl: string)
    requires pat != [] && pat[0] !in text
    ensures ReplaceAll(text + rest, pat, repl) == text + ReplaceAll(rest, pat, repl)
    decreases |text|
  {
    if text == [] {
      assert text + rest == rest;
    } else {
      var s := text + rest;
      assert text[0] in text;
      assert s[0] == text[0] && s[1..] == text[1..] + rest;
      assert |s| >= |pat| ==> s[..|pat|] != pat;
      assert ReplaceAll(s, pat, repl) == [text[0]] + ReplaceAll(text[1..] + rest, pat, repl);
      assert pat[0] !in text[1..] by { assert forall x :: x in text[1..] ==> x in text; }
      ReplaceAllCopies(text[1..], rest, pat, repl);
      var r := ReplaceAll(rest, pat, repl);
      assert [text[0]] + (text[1..] + r) == ([text[0]] + text[1..]) + r;
      assert [text[0]] + text[1..] == text;
    }
  }

  /** Two occurrences separated by text that cannot start the pattern are
      both replaced. */
  lemma ReplaceAllTwoOccurrences(mid: string, tail: string, pat: string, repl: string)
    requires pat != [] && pat[0] !in mid
    requires !Contains(tail, pat)
    ensures ReplaceAll(pat + mid + pat + tail, pat, repl) == repl + mid + repl + tail
  {
    var t := ReplaceAll(tail, pat, repl);
    assert t == tail;
    ReplaceAllAtOccurrence(tail, pat, repl);
    var rest := mid + (pat + tail);
    ReplaceAllCopies(mid, pat + tail, pat, repl);
    assert ReplaceAll(rest, pat, repl) == mid + (repl + tail);
    ReplaceAllAtOccurrence(rest, pat, repl);
    assert pat + mid + pat + tail == pat + rest;
    assert repl + (mid + (repl + tail)) == repl + mid + repl + tail;
  }

  /** A later copy of the scheme text is rewritten too, as `str.replace`
      replaces every occurrence, not only the leading one. */
  lemma RewriteReplacesLaterCopies(host: string, tail: string)
    requires 'p' !in host
    requires !Contains(tail, PostgresScheme)
    ensures RewriteDatabaseUrl(PostgresScheme + host + PostgresScheme + tail)
            == PostgresqlScheme + host + PostgresqlScheme + tail
  {
    var url := PostgresScheme + host + PostgresScheme + tail;
    ReplaceAllTwoOccurrences(host, tail, PostgresScheme, PostgresqlScheme);
    assert url[..|PostgresScheme|] == PostgresScheme;
  }

  /** What makes a replacement leave no occurrence of the pattern behind: the
      pattern's first character occurs nowhere else in the pattern nor, after
      its first position, in the replacement; the replacement begins with that
      character but does not begin with the pattern. */
  predicate NoReappearance(pat: string, repl: string)
  {
    && pat != []
    && pat[0] !in pat[1..]
    && |pat| <= |repl|
    && repl[0] == pat[0]
    && pat[0] !in repl[1..]
    && repl[..|pat|] != pat
  }

  /** `postgresql://` cannot bring `postgres://` back: `p` occurs in either
      only at the front, and the two differ at index 8. */
  lemma SchemesAreSafe()
    ensures NoReappearance(PostgresScheme, PostgresqlScheme)
  {
    assert PostgresScheme[1..] == "ostgres://";
    assert PostgresqlScheme[1..] == "ostgresql://";
    assert PostgresqlScheme[..|PostgresScheme|][8] != PostgresScheme[8];
  }

  lemma {:induction false} ShortNoContains(s: string, pat: string)
    requires |s| < |pat|
    ensures !Contains(s, pat)
    decreases |s|
  {
    if s != [] {
      ShortNoContains(s[1..], pat);
    }
  }

  /** Text after a front that cannot start the pattern past its first
      character: the pattern occurs in the whole only where it occurs in the
      rest, or at the very front. */
  lemma {:induction false} NoOccurrenceAfterFront(front: string, rest: string, pat: string)
    requires pat != []
    requires forall i :: 0 < i < |front| ==> front[i] != pat[0]
    requires !StartsWith(front + rest, pat)
    requires !Contains(rest, pat)
    ensures !Contains(front + rest, pat)
    decreases |front|
  {
    if front == [] {
      assert front + rest == rest;
    } else {
      var tail := front[1..];
      assert (front + rest)[1..] == tail + rest;
      if tail == [] {
        assert tail + rest == rest;
      } else {
        assert (tail + rest)[0] == front[1];
      }
      NoOccurrenceAfterFront(tail, rest, pat);
    }
  }

  /** The output of `replace` starts with a suffix `pat[k..]` (k < |pat|) only
      where the input already did. */
  lemma {:induction false} ReplacedFrontComesFromInput(t: string, pat: string, repl: string, k: nat)
    requires NoReappearance(pat, repl) && k < |pat|
    ensures StartsWith(ReplaceAll(t, pat, repl), pat[k..]) ==> StartsWith(t, pat[k..])
    decreases |t|
  {
    var r := ReplaceAll(t, pat, repl);
    if |t| < |pat| {
    } else if t[..|pat|] == pat {
      assert r[..|pat|] == repl[..|pat|];
      if k > 0 {
        assert pat[k] == pat[1..][k - 1];
        assert r[0] != pat[k..][0];
      }
    } else if k + 1 == |pat| {
      assert r[0] == t[0];
    } else {
      ReplacedFrontComesFromInput(t[1..], pat, repl, k + 1);
      assert pat[k..][1..] == pat[k + 1..];
      assert r[1..] == ReplaceAll(t[1..], pat, repl);
      if StartsWith(r, pat[k..]) {
        assert r[1..][..|pat[k + 1..]|] == r[..|pat[k..]|][1..];
        assert t[..|pat[k..]|] == [t[0]] + t[1..][..|pat[k + 1..]|];
      }
    }
  }

  /** Replacing every occurrence of `pat` by a replacement that cannot bring
      it back leaves no occurrence of `pat` anywhere. */
  lemma {:induction false} ReplaceAllLeavesNoOccurrence(s: string, pat: string, repl: string)
    requires NoReappearance(pat, repl)
    ensures !Contains(ReplaceAll(s, pat, repl), pat)
    decreases |s|
  {
    var r := ReplaceAll(s, pat, repl);
    if |s| < |pat| {
      ShortNoContains(s, pat);
    } else if s[..|pat|] == pat {
      var rest := ReplaceAll(s[|pat|..], pat, repl);
      ReplaceAllLeavesNoOccurrence(s[|pat|..], pat, repl);
      assert (repl + rest)[..|pat|] == repl[..|pat|];
      assert forall i :: 0 < i < |repl| ==> repl[i] == repl[1..][i - 1];
      NoOccurrenceAfterFront(repl, rest, pat);
    } else {
      ReplaceAllLeavesNoOccurrence(s[1..], pat, repl);
      ReplacedFrontComesFromInput(s, pat, repl, 0);
      assert pat[0..] == pat;
      assert r[1..] == ReplaceAll(s[1..], pat, repl);
    }
  }
}
