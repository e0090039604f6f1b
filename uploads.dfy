/**
 * The receipt-upload rules of app.py: the extension allow-list, the
 * `allowed_file` test and the name an accepted upload is stored under.
 */
module Uploads {
  import opened Wrappers
  import opened Text

  /** `ALLOWED_EXTENSIONS`. */
  const AllowedExtensions: set<string> := {"png", "jpg", "jpeg", "gif", "pdf"}

  /** The position of the last occurrence of `c` in `s`, if any. */
  function LastIndexOf(s: string, c: char): (r: Option<nat>)
    ensures r.None? <==> c !in s
    ensures r.Some? ==> r.value < |s| && s[r.value] == c && forall k :: r.value < k < |s| ==> s[k] != c
  {
    if s == [] then None
    else if s[|s| - 1] == c then Some(|s| - 1)
    else
      var r := LastIndexOf(s[..|s| - 1], c);
      assert s == s[..|s| - 1] + [s[|s| - 1]];
      r
  }

  /**
   * Python's `s.rsplit(sep, 1)`: `[s]` when `sep` does not occur, otherwise
   * the text before and the text after the last `sep`.
   */
  function RSplitOnce(s: string, sep: char): (parts: seq<string>)
    ensures sep !in s ==> parts == [s]
    ensures sep in s ==> |parts| == 2 && parts[0] + [sep] + parts[1] == s && sep !in parts[1]
  {
    match LastIndexOf(s, sep)
    case None => [s]
    case Some(i) =>
      assert s[..i] + [sep] + s[i + 1..] == s;
      [s[..i], s[i + 1..]]
  }

  /**
   * `allowed_file(filename)`: the name has a dot and the lower-cased text
   * after its last dot is on the allow-list.
   */
  predicate AllowedFile(filename: string) {
    '.' in filename && Lower(RSplitOnce(filename, '.')[1]) in AllowedExtensions
  }

  /** When no dot follows the dot at `i`, the extension `allowed_file` checks is the text after `i`. */
  lemma LastDotAt(f: string, i: nat)
    requires i < |f| && f[i] == '.'
    requires forall k :: i < k < |f| ==> f[k] != '.'
    ensures RSplitOnce(f, '.')[1] == f[i + 1..]
    ensures AllowedFile(f) <==> Lower(f[i + 1..]) in AllowedExtensions
  {
  }

  /**
   * `AllowedFile` holds exactly when some dot of the name has no dot after
   * it and the lower-cased text after it is an allowed extension.
   */
  lemma AllowedFileIff(f: string)
    ensures AllowedFile(f) <==>
      exists i :: 0 <= i < |f| && f[i] == '.' && (forall k :: i < k < |f| ==> f[k] != '.') && Lower(f[i + 1..]) in AllowedExtensions
  {
    if AllowedFile(f) {
      var i := LastIndexOf(f, '.').value;
      LastDotAt(f, i);
    }
    if exists i :: 0 <= i < |f| && f[i] == '.' && (forall k :: i < k < |f| ==> f[k] != '.') && Lower(f[i + 1..]) in AllowedExtensions {
      var i :| 0 <= i < |f| && f[i] == '.' && (forall k :: i < k < |f| ==> f[k] != '.') && Lower(f[i + 1..]) in AllowedExtensions;
      LastDotAt(f, i);
    }
  }

  /** Lower-casing never creates or removes a dot, so the last dot stays where it was. */
  lemma {:induction false} LastDotOfLower(s: string)
    ensures LastIndexOf(Lower(s), '.') == LastIndexOf(s, '.')
    decreases |s|
  {
    if s != [] {
      LowerSlice(s, 0, |s| - 1);
      LastDotOfLower(s[..|s| - 1]);
    }
  }

  /** The test ignores case throughout: the whole name may be lower-cased first. */
  lemma AllowedFileIgnoresCase(f: string)
    ensures AllowedFile(Lower(f)) == AllowedFile(f)
  {
    LastDotOfLower(f);
    match LastIndexOf(f, '.')
    case None =>
      assert '.' !in Lower(f);
    case Some(i) =>
      IgnoresCaseAt(f, i);
  }

  /** `AllowedFileIgnoresCase` for a name whose last dot is at `i`. */
  lemma IgnoresCaseAt(f: string, i: nat)
    requires LastIndexOf(f, '.') == Some(i) && LastIndexOf(Lower(f), '.') == Some(i)
    ensures AllowedFile(Lower(f)) == AllowedFile(f)
  {
    var l := Lower(f);
    var ext := Lower(f[i + 1..]);
    assert l[i + 1..] == ext by {
      LowerSlice(f, i + 1, |f|);
    }
    assert Lower(l[i + 1..]) == ext by {
      LowerIdempotent(f[i + 1..]);
    }
    assert AllowedFile(f) == (ext in AllowedExtensions) by {
      LastDotAt(f, i);
    }
    assert AllowedFile(l) == (Lower(l[i + 1..]) in AllowedExtensions) by {
      LastDotAt(l, i);
    }
  }

  /** Edge cases: the extension is case-insensitive, only the last one counts, and a dot is required. */
  lemma AllowedFileExamples()
    ensures AllowedFile("x.PDF")
    ensures AllowedFile("recibo.final.Jpeg")
    ensures AllowedFile(".png")
    ensures !AllowedFile("x.tar.gz")
    ensures !AllowedFile("pdf")
    ensures !AllowedFile("x.")
    ensures !AllowedFile("notes.txt")
  {
    AcceptsUpperCase();
    AcceptsLastExtension();
    AcceptsBareExtension();
    RejectsEarlierExtension();
    RejectsTrailingDot();
    RejectsOtherExtension();
  }

  lemma AcceptsUpperCase()
    ensures AllowedFile("x.PDF")
  {
    LastDotAt("x.PDF", 1);
    assert Lower("PDF") == "pdf";
  }

  lemma AcceptsLastExtension()
    ensures AllowedFile("recibo.final.Jpeg")
  {
    LastDotAt("recibo.final.Jpeg", 12);
    assert Lower("Jpeg") == "jpeg";
  }

  lemma AcceptsBareExtension()
    ensures AllowedFile(".png")
  {
    LastDotAt(".png", 0);
    assert Lower("png") == "png";
  }

  lemma RejectsEarlierExtension()
    ensures !AllowedFile("x.tar.gz")
  {
    LastDotAt("x.tar.gz", 5);
  }

  lemma RejectsTrailingDot()
    ensures !AllowedFile("x.")
  {
    LastDotAt("x.", 1);
  }

  lemma RejectsOtherExtension()
    ensures !AllowedFile("notes.txt")
  {
    LastDotAt("notes.txt", 5);
  }

  /** The name a saved receipt gets: the upload timestamp, an underscore, then the sanitised name. */
  function StoredName(stamp: string, secured: string): string {
    stamp + "_" + secured
  }

  /**
   * Prefixing the timestamp keeps the extension: when the sanitised name has a
   * dot, the text after the last dot of the stored name is the text after the
   * last dot of the sanitised name, so both get the same `allowed_file` verdict.
   */
  lemma StoredNameExtension(stamp: string, secured: string)
    requires '.' in secured
    ensures RSplitOnce(StoredName(stamp, secured), '.')[1] == RSplitOnce(secured, '.')[1]
    ensures AllowedFile(StoredName(stamp, secured)) == AllowedFile(secured)
  {
    ExtensionOfSuffix(stamp + "_", secured);
  }

  /** The text after the last dot of `prefix + f` is that of `f`, when `f` has a dot. */
  lemma ExtensionOfSuffix(prefix: string, f: string)
    requires '.' in f
    ensures RSplitOnce(prefix + f, '.')[1] == RSplitOnce(f, '.')[1]
  {
    var ext := RSplitOnce(f, '.')[1];
    var g := prefix + f;
    var i := |g| - |ext| - 1;
    assert g[i + 1..] == ext;
    assert g[i] == '.';
    forall k | i < k < |g|
      ensures g[k] != '.'
    {
      assert g[k] == ext[k - i - 1];
    }
    LastDotAt(g, i);
  }

  /**
   * The verdict is taken on the uploaded name, not on the name saved: a
   * sanitiser that drops the dot before the extension yields a saved name
   * with no allowed extension.
   */
  lemma SavedNameMayLoseExtension()
    ensures AllowedFile("x.png") && !AllowedFile(StoredName("20261014", "png"))
  {
    LastDotAt("x.png", 1);
    assert Lower("png") == "png";
    SavedNameWithoutDot();
  }

  lemma SavedNameWithoutDot()
    ensures '.' !in StoredName("20261014", "png")
  {
    assert StoredName("20261014", "png") == "20261014_png";
  }
}
