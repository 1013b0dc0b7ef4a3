// Attachment file names: sanitize_filename (character replacement, then the
// 200-character limit around os.path.splitext), the names synthesized for
// attachments that declare none, and the "<prefix>_<name>" rule that keeps
// names from different messages apart.

module Filenames {
  import opened Strings

  /** The characters sanitize_filename replaces by '_'. */
  const InvalidChars: string := "<>:\"/\\|?*"
  const MaxLength: nat := 200
  const KeptStem: nat := 195

  /** `s.replace(c, d)` for one-character `c` and `d`. */
  function ReplaceChar(s: string, c: char, d: char): (r: string)
    ensures |r| == |s|
    ensures forall k :: 0 <= k < |s| ==> r[k] == if s[k] == c then d else s[k]
  {
    if s == [] then [] else [if s[0] == c then d else s[0]] + ReplaceChar(s[1..], c, d)
  }

  /** `s` with every character of `cs` replaced by '_'. */
  function ReplacedBy(s: string, cs: string): (r: string)
  {
    seq(|s|, k requires 0 <= k < |s| => if s[k] in cs then '_' else s[k])
  }

  /** The first half of sanitize_filename: the invalid characters replaced. */
  function Scrubbed(s: string): string
  {
    ReplacedBy(s, InvalidChars)
  }

  /** `s.rfind(c)`: the last index of `c`, or -1. */
  function RFind(s: string, c: char): (r: int)
    ensures -1 <= r < |s|
    ensures r >= 0 ==> s[r] == c
    ensures forall k :: r < k < |s| ==> s[k] != c
  {
    if s == [] then -1
    else if s[|s| - 1] == c then |s| - 1
    else RFind(s[..|s| - 1], c)
  }

  predicate HasNonDot(p: string, lo: int, hi: int)
    requires 0 <= lo && hi <= |p|
  {
    exists k :: lo <= k < hi && p[k] != '.'
  }

  /** `os.path.splitext(p)` on POSIX: the extension runs from the last '.'
      after the last '/', provided something other than dots precedes it in
      the last path component; otherwise it is empty. */
  function SplitExt(p: string): (r: (string, string))
    ensures r.0 + r.1 == p
    ensures r.1 == [] || (r.1[0] == '.' && '.' !in r.1[1..] && '/' !in r.1)
    ensures r.1 != [] <==> DotAfterNonDot(p)
  {
    var sepIndex := RFind(p, '/');
    var dotIndex := RFind(p, '.');
    DotAfterNonDotSplits(p);
    if dotIndex > sepIndex && HasNonDot(p, sepIndex + 1, dotIndex) then
      assert p[dotIndex..] == [p[dotIndex]] + p[dotIndex + 1..];
      (p[..dotIndex], p[dotIndex..])
    else
      (p, "")
  }

  /** splitext's own test, in terms of the last '/' and the last '.', holds
      exactly when the last component has a '.' after a non-dot. */
  lemma DotAfterNonDotSplits(p: string)
    ensures DotAfterNonDot(p)
        <==> RFind(p, '.') > RFind(p, '/') && HasNonDot(p, RFind(p, '/') + 1, RFind(p, '.'))
  {
    var sepIndex := RFind(p, '/');
    var dotIndex := RFind(p, '.');
    if DotAfterNonDot(p) {
      var i, j :| sepIndex < i < j < |p| && p[i] != '.' && p[j] == '.';
      assert j <= dotIndex;
      assert sepIndex + 1 <= i < dotIndex;
    }
    if dotIndex > sepIndex && HasNonDot(p, sepIndex + 1, dotIndex) {
      var i :| sepIndex + 1 <= i < dotIndex && p[i] != '.';
      assert sepIndex < i < dotIndex < |p| && p[i] != '.' && p[dotIndex] == '.';
    }
  }

  /** The last path component of `p` holds a '.' after a character other
      than '.': the case in which `os.path.splitext` finds an extension. */
  predicate DotAfterNonDot(p: string)
  {
    exists i, j :: RFind(p, '/') < i < j < |p| && p[i] != '.' && p[j] == '.'
  }

  /** `s[:n]`. */
  function Take(s: string, n: nat): (r: string)
    ensures r <= s && |r| == if |s| <= n then |s| else n
  {
    if |s| <= n then s else s[..n]
  }

  /** What sanitize_filename returns. */
  function Sanitized(s: string): string
  {
    var t := Scrubbed(s);
    if |t| > MaxLength then
      var (name, ext) := SplitExt(t);
      Take(name, KeptStem) + ext
    else
      t
  }

  /** sanitize_filename: one `replace` per invalid character, then the length limit. */
  method SanitizeFilename(filename: string) returns (r: string)
    ensures r == Sanitized(filename)
  {
    r := filename;
    var i := 0;
    while i < |InvalidChars|
      invariant 0 <= i <= |InvalidChars|
      invariant r == ReplacedBy(filename, InvalidChars[..i])
    {
      r := ReplaceChar(r, InvalidChars[i], '_');
      assert InvalidChars[..i + 1] == InvalidChars[..i] + [InvalidChars[i]];
      assert forall k :: 0 <= k < |filename| ==>
        r[k] == (if filename[k] in InvalidChars[..i + 1] then '_' else filename[k]);
      i := i + 1;
    }
    assert InvalidChars[..i] == InvalidChars;
    if |r| > MaxLength {
      var (name, ext) := SplitExt(r);
      r := Take(name, KeptStem) + ext;
    }
  }

  /** No character of `<>:"/\|?*` survives sanitizing. */
  lemma SanitizedIsClean(s: string)
    ensures forall k :: 0 <= k < |Sanitized(s)| ==> Sanitized(s)[k] !in InvalidChars
  {
    var t := Scrubbed(s);
    assert forall k :: 0 <= k < |t| ==> t[k] !in InvalidChars;
    if |t| > MaxLength {
      var (name, ext) := SplitExt(t);
      TrimmedClean(t, name, ext, KeptStem);
    }
  }

  /** Cutting the stem of a name free of invalid characters leaves none. */
  lemma TrimmedClean(t: string, name: string, ext: string, n: nat)
    requires name + ext == t
    requires forall k :: 0 <= k < |t| ==> t[k] !in InvalidChars
    ensures forall k :: 0 <= k < |Take(name, n) + ext| ==> (Take(name, n) + ext)[k] !in InvalidChars
  {
    var r := Take(name, n) + ext;
    forall k | 0 <= k < |r| ensures r[k] !in InvalidChars {
      if k < |Take(name, n)| {
        assert r[k] == name[k] == t[k];
      } else {
        assert r[k] == ext[k - |Take(name, n)|] == t[|name| + k - |Take(name, n)|];
      }
    }
  }

  /** A name of at most 200 characters keeps its length: each invalid
      character becomes '_' and every other character stays in place. */
  lemma SanitizedShort(s: string)
    requires |s| <= MaxLength
    ensures |Sanitized(s)| == |s|
    ensures forall k :: 0 <= k < |s| ==>
      Sanitized(s)[k] == if s[k] in InvalidChars then '_' else s[k]
  {
  }

  /** A longer name becomes the first 195 characters of its stem followed by
      its extension, as `os.path.splitext` divides the replaced name. */
  lemma SanitizedLong(s: string)
    requires |s| > MaxLength
    ensures var (name, ext) := SplitExt(Scrubbed(s));
      && name + ext == Scrubbed(s)
      && Sanitized(s) == Take(name, KeptStem) + ext
      && |Sanitized(s)| == (if |name| <= KeptStem then |name| else KeptStem) + |ext|
  {
  }

  /** The 200-character limit holds whenever the extension, dot included,
      has at most five characters. */
  lemma SanitizedBounded(s: string)
    requires |SplitExt(Scrubbed(s)).1| <= MaxLength - KeptStem
    ensures |Sanitized(s)| <= MaxLength
  {
  }

  lemma ScrubbedClean(s: string)
    requires forall k :: 0 <= k < |s| ==> s[k] !in InvalidChars
    ensures Scrubbed(s) == s
  {
  }

  /** A name of one character before its only dot splits there. */
  lemma SplitExtAfterFirst(p: string)
    requires |p| >= 2 && p[0] != '.' && p[1] == '.'
    requires forall k :: 0 <= k < |p| ==> p[k] != '/'
    requires forall k :: 2 <= k < |p| ==> p[k] != '.'
    ensures SplitExt(p) == (p[..1], p[1..])
  {
    assert RFind(p, '/') == -1;
    assert RFind(p, '.') == 1;
    assert HasNonDot(p, 0, 1);
  }

  /** The limit does not hold for longer extensions: "a." followed by 200 or
      more characters free of dots and invalid characters comes back whole. */
  lemma SanitizedKeepsLongExtension(x: string)
    requires |x| >= MaxLength
    requires forall k :: 0 <= k < |x| ==> x[k] != '.' && x[k] !in InvalidChars
    ensures Sanitized("a." + x) == "a." + x
    ensures |Sanitized("a." + x)| > MaxLength
  {
    var p := "a." + x;
    forall k | 0 <= k < |p| ensures p[k] !in InvalidChars && p[k] != '/' && (k >= 2 ==> p[k] != '.') {
      if k >= 2 { assert p[k] == x[k - 2]; }
    }
    ScrubbedClean(p);
    SplitExtAfterFirst(p);
    assert p[..1] + p[1..] == p;
  }

  /** Sanitizing a sanitized name of at most 200 characters changes nothing. */
  lemma SanitizedIdempotent(s: string)
    requires |Sanitized(s)| <= MaxLength
    ensures Sanitized(Sanitized(s)) == Sanitized(s)
  {
    var r := Sanitized(s);
    SanitizedIsClean(s);
    assert Scrubbed(r) == r;
  }

  /** The text of `email_name` before its first '.'. */
  function EmailPrefix(emailName: string): (r: string)
    ensures '.' !in r && r <= emailName
    ensures r == emailName || emailName[|r|] == '.'
  {
    Before(emailName, '.')
  }

  /** The name an attachment is saved under: `f"{email_prefix}_{filename}"`. */
  function UniqueName(emailName: string, filename: string): (r: string)
  {
    EmailPrefix(emailName) + "_" + filename
  }

  /** The same attachment name saved from two messages collides only when
      the messages' names agree up to their first '.'. */
  lemma UniqueNamesApart(e1: string, e2: string, filename: string)
    requires UniqueName(e1, filename) == UniqueName(e2, filename)
    ensures EmailPrefix(e1) == EmailPrefix(e2)
  {
    var u := UniqueName(e1, filename);
    var n := |EmailPrefix(e1)|;
    assert |EmailPrefix(e2)| == n;
    assert EmailPrefix(e1) == u[..n] == EmailPrefix(e2);
  }

  /** `mimetypes.guess_extension(content_type) or '.bin'`. */
  function ExtensionOrBin(guess: Option<string>): (r: string)
    ensures r != ""
    ensures Truthy(guess) ==> r == guess.value
    ensures !Truthy(guess) ==> r == ".bin"
  {
    if Truthy(guess) then guess.value else ".bin"
  }

  /** The name extract_attachment gives an attachment without one. */
  function SynthesizedName(contentType: string, ext: string): (r: string)
    ensures r == "unnamed_attachment_" + ReplaceChar(contentType, '/', '_') + ext
    ensures '/' !in r[|"unnamed_attachment_"|..|r| - |ext|]
  {
    var r := "unnamed_attachment_" + ReplaceChar(contentType, '/', '_') + ext;
    assert r[|"unnamed_attachment_"|..|r| - |ext|] == ReplaceChar(contentType, '/', '_');
    r
  }

  /** The name get_attachment_info shows for an attachment without one. */
  function DescribedUnnamed(ext: string): string
  {
    "unnamed_attachment" + ext
  }
}
