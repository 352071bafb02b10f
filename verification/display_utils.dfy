/**
 * `DisplayUtils`: the string helpers of the app that do not depend on the
 * locale, the clock or Android: trimming a path, naming a MIME type, picking
 * the size suffix of a byte count, and locating the host of a URL for IDN
 * conversion.
 */
module DisplayUtils {
  import opened Wrappers

  // ---------------------------------------------------------------------------
  // Paths
  // ---------------------------------------------------------------------------

  /** `OCFile.PATH_SEPARATOR`. */
  const PATH_SEPARATOR: char := '/'

  /**
   * `getPathWithoutLastSlash`: one trailing separator is dropped from a path
   * longer than one character; the root "/" and every other path stay as they are.
   */
  function GetPathWithoutLastSlash(path: string): (r: string)
    ensures path == r || (path == r + [PATH_SEPARATOR] && |r| >= 1)
    ensures r != path <==> |path| > 1 && path[|path| - 1] == PATH_SEPARATOR
  {
    if |path| > 1 && path[|path| - 1] == PATH_SEPARATOR then path[..|path| - 1] else path
  }

  // ---------------------------------------------------------------------------
  // MIME types
  // ---------------------------------------------------------------------------

  /** The table filled by the class's static initialiser, as the source has it. */
  const MimeType2HumanReadable: map<string, string> := map[
    "image/jpeg" := "JPEG image",
    "image/jpg" := "JPEG image",
    "image/png" := "PNG image",
    "image/bmp" := "Bitmap image",
    "image/gif" := "GIF image",
    "image/svg+xml" := "JPEG image",
    "image/tiff" := "TIFF image",
    "audio/mpeg" := "MP3 music file",
    "application/ogg" := "OGG music file"
  ]

  /** `pattern` occurs in `s` at position `j`. */
  predicate Occurs(s: string, pattern: string, j: int)
  {
    0 <= j && j + |pattern| <= |s| && s[j..j + |pattern|] == pattern
  }

  lemma OccursSingle(s: string, c: char)
    ensures forall j :: Occurs(s, [c], j) <==> 0 <= j < |s| && s[j] == c
  {
    forall j | 0 <= j < |s|
      ensures s[j..j + 1] == [s[j]]
    {
    }
  }

  /** `String.indexOf(pattern)`: the first position where `pattern` occurs, or -1. */
  function IndexOf(s: string, pattern: string): (i: int)
    ensures i == -1 || Occurs(s, pattern, i)
    ensures forall j :: 0 <= j && (i == -1 || j < i) ==> !Occurs(s, pattern, j)
  {
    if |s| < |pattern| then -1
    else if s[..|pattern|] == pattern then 0
    else
      var rest := IndexOf(s[1..], pattern);
      assert forall j :: 1 <= j ==> (Occurs(s, pattern, j) <==> Occurs(s[1..], pattern, j - 1));
      if rest == -1 then -1 else rest + 1
  }

  /** `String.contains(pattern)`. */
  predicate Contains(s: string, pattern: string)
  {
    IndexOf(s, pattern) >= 0
  }

  /** The pieces of `s` between the occurrences of `sep`, empty pieces included. */
  function SplitAll(s: string, sep: char): (parts: seq<string>)
    ensures |parts| >= 1
    ensures forall p :: p in parts ==> sep !in p
    decreases |s|
  {
    var k := IndexOf(s, [sep]);
    OccursSingle(s, sep);
    if k == -1 then
      [s]
    else
      [s[..k]] + SplitAll(s[k + 1..], sep)
  }

  /** The pieces joined back with `sep` in between. */
  function Join(parts: seq<string>, sep: char): string
    requires |parts| >= 1
  {
    if |parts| == 1 then parts[0] else parts[0] + [sep] + Join(parts[1..], sep)
  }

  /** Splitting loses nothing: joining the pieces gives the string back. */
  lemma {:induction false} JoinSplitAll(s: string, sep: char)
    ensures Join(SplitAll(s, sep), sep) == s
    decreases |s|
  {
    var k := IndexOf(s, [sep]);
    OccursSingle(s, sep);
    if k != -1 {
      var rest := SplitAll(s[k + 1..], sep);
      var parts := [s[..k]] + rest;
      assert SplitAll(s, sep) == parts;
      assert parts[0] == s[..k] && parts[1..] == rest;
      JoinSplitAll(s[k + 1..], sep);
      assert Join(parts, sep) == s[..k] + [sep] + s[k + 1..];
      assert s == s[..k] + [sep] + s[k + 1..];
    }
  }

  /** Java's split drops the empty pieces at the end. */
  function DropTrailingEmpty(parts: seq<string>): (r: seq<string>)
    ensures |r| <= |parts| && r == parts[..|r|]
    ensures r != [] ==> r[|r| - 1] != ""
    ensures forall i :: |r| <= i < |parts| ==> parts[i] == ""
  {
    if parts == [] then []
    else if parts[|parts| - 1] == "" then DropTrailingEmpty(parts[..|parts| - 1])
    else parts
  }

  /** `String.split(sep)`: no separator gives the string itself; else the pieces without trailing empties. */
  function JavaSplit(s: string, sep: char): (parts: seq<string>)
    ensures sep !in s ==> parts == [s]
    ensures forall p :: p in parts ==> sep !in p
    ensures sep in s && parts != [] ==> parts[|parts| - 1] != ""
  {
    if sep !in s then [s] else DropTrailingEmpty(SplitAll(s, sep))
  }

  /** ASCII upper case, standing for the locale's `toUpperCase`. */
  function ToUpperCase(s: string): (r: string)
    ensures |r| == |s|
    ensures forall i :: 0 <= i < |s| ==>
      r[i] == if 'a' <= s[i] <= 'z' then (s[i] as int - 32) as char else s[i]
  {
    seq(|s|, i requires 0 <= i < |s| => if 'a' <= s[i] <= 'z' then (s[i] as int - 32) as char else s[i])
  }

  /**
   * `convertMIMEtoPrettyPrint`: the table's name for a mapped type; else the
   * upper-cased second piece of the type and " file" when splitting at '/'
   * leaves at least two pieces; else "Unknown type".
   */
  function ConvertMIMEtoPrettyPrint(mimetype: string): (r: string)
    ensures mimetype in MimeType2HumanReadable ==> r == MimeType2HumanReadable[mimetype]
  {
    if mimetype in MimeType2HumanReadable then MimeType2HumanReadable[mimetype]
    else
      var parts := JavaSplit(mimetype, '/');
      if |parts| >= 2 then ToUpperCase(parts[1]) + " file" else "Unknown type"
  }

  /** Some character of `s` is not `c`. */
  predicate HasOtherThan(s: string, c: char)
  {
    exists x :: x in s && x != c
  }

  /**
   * The subtype of a MIME type read directly off the text: what lies between
   * its first '/' and the next '/' (or the end), provided something other
   * than '/' follows the first '/'.
   */
  function Subtype(mimetype: string): Option<string>
  {
    var k := IndexOf(mimetype, "/");
    if k == -1 then None
    else
      var rest := mimetype[k + 1..];
      if !HasOtherThan(rest, '/') then None
      else
        var e := IndexOf(rest, "/");
        Some(if e == -1 then rest else rest[..e])
  }

  /**
   * An unmapped type is named after its subtype, upper-cased, and is
   * "Unknown type" when it has none: no '/', or nothing but '/' after the first.
   */
  lemma PrettyPrintBySubtype(mimetype: string)
    requires mimetype !in MimeType2HumanReadable
    ensures Subtype(mimetype).None? ==> ConvertMIMEtoPrettyPrint(mimetype) == "Unknown type"
    ensures Subtype(mimetype).Some? ==>
      ConvertMIMEtoPrettyPrint(mimetype) == ToUpperCase(Subtype(mimetype).value) + " file"
  {
    SplitBySubtype(mimetype);
  }

  /** Java's split leaves a second piece exactly when there is a subtype, and that piece is the subtype. */
  lemma SplitBySubtype(mimetype: string)
    ensures Subtype(mimetype).None? <==> |JavaSplit(mimetype, '/')| < 2
    ensures Subtype(mimetype).Some? ==> JavaSplit(mimetype, '/')[1] == Subtype(mimetype).value
  {
    var k := IndexOf(mimetype, "/");
    OccursSingle(mimetype, '/');
    if k != -1 {
      SplitAfterFirstSlash(mimetype, k);
    }
  }

  lemma SplitAfterFirstSlash(mimetype: string, k: int)
    requires k == IndexOf(mimetype, "/") && k != -1
    ensures Subtype(mimetype).None? <==> |JavaSplit(mimetype, '/')| < 2
    ensures Subtype(mimetype).Some? ==> JavaSplit(mimetype, '/')[1] == Subtype(mimetype).value
  {
    var rest := mimetype[k + 1..];
    PiecesAfterFirstSlash(mimetype, k);
    if HasOtherThan(rest, '/') {
      FirstPiece(rest);
      assert Subtype(mimetype) == Some(SplitAll(rest, '/')[0]);
    } else {
      assert Subtype(mimetype) == None;
    }
  }

  /** Java's split has a second piece exactly when something other than '/' follows the first '/'. */
  lemma PiecesAfterFirstSlash(mimetype: string, k: int)
    requires k == IndexOf(mimetype, "/") && k != -1
    ensures |JavaSplit(mimetype, '/')| >= 2 <==> HasOtherThan(mimetype[k + 1..], '/')
    ensures |JavaSplit(mimetype, '/')| >= 2 ==> JavaSplit(mimetype, '/')[1] == SplitAll(mimetype[k + 1..], '/')[0]
  {
    var rest := mimetype[k + 1..];
    var pieces := SplitAll(rest, '/');
    var all := [mimetype[..k]] + pieces;
    FirstSlashSplit(mimetype, k);
    SomePieceNonEmpty(rest, '/');
    SecondPieceKept(all);
    LaterPieceNonEmpty(mimetype[..k], pieces);
    assert all[1] == pieces[0];
  }

  /** Java's split of a text with a first '/' at `k`: the text before it, then the pieces after it. */
  lemma FirstSlashSplit(mimetype: string, k: int)
    requires k == IndexOf(mimetype, "/") && k != -1
    ensures JavaSplit(mimetype, '/') == DropTrailingEmpty([mimetype[..k]] + SplitAll(mimetype[k + 1..], '/'))
  {
    OccursSingle(mimetype, '/');
    assert '/' in mimetype;
  }

  lemma LaterPieceNonEmpty(head: string, pieces: seq<string>)
    ensures (exists i :: 1 <= i < |[head] + pieces| && ([head] + pieces)[i] != "")
        <==> (exists i :: 0 <= i < |pieces| && pieces[i] != "")
  {
    var all := [head] + pieces;
    forall i | 1 <= i < |all| ensures all[i] == pieces[i - 1] { }
    forall i | 0 <= i < |pieces| ensures pieces[i] == all[i + 1] { }
  }

  /** The first piece runs up to the first separator, or is the whole text. */
  lemma FirstPiece(rest: string)
    ensures SplitAll(rest, '/')[0] == var e := IndexOf(rest, "/"); if e == -1 then rest else rest[..e]
  {
    OccursSingle(rest, '/');
  }

  /** Some piece is non-empty exactly when the string has a character other than the separator. */
  lemma SomePieceNonEmpty(s: string, sep: char)
    ensures (exists i :: 0 <= i < |SplitAll(s, sep)| && SplitAll(s, sep)[i] != "") <==> HasOtherThan(s, sep)
  {
    var parts := SplitAll(s, sep);
    JoinSplitAll(s, sep);
    JoinChars(parts, sep);
    if exists i :: 0 <= i < |parts| && parts[i] != "" {
      var i :| 0 <= i < |parts| && parts[i] != "";
      var c := parts[i][0];
      assert c in parts[i] && c != sep;
      assert c in s;
    }
    if HasOtherThan(s, sep) {
      var c :| c in s && c != sep;
      var i :| 0 <= i < |parts| && c in parts[i];
      assert parts[i] != "";
    }
  }

  /** The characters of a join are the separators and the characters of the pieces. */
  lemma {:induction false} JoinChars(parts: seq<string>, sep: char)
    requires |parts| >= 1
    ensures forall c :: c in Join(parts, sep) ==> c == sep || exists i :: 0 <= i < |parts| && c in parts[i]
    ensures forall i, c :: 0 <= i < |parts| && c in parts[i] ==> c in Join(parts, sep)
  {
    if |parts| > 1 {
      JoinChars(parts[1..], sep);
      assert Join(parts, sep) == parts[0] + [sep] + Join(parts[1..], sep);
      forall i, c | 0 <= i < |parts| && c in parts[i]
        ensures c in Join(parts, sep)
      {
        if i > 0 {
          assert parts[i] == parts[1..][i - 1];
        }
      }
    }
  }

  /** Java keeps a second piece exactly when some piece after the first is non-empty; it is the second piece. */
  lemma SecondPieceKept(parts: seq<string>)
    requires |parts| >= 1
    ensures |DropTrailingEmpty(parts)| >= 2 <==> exists i :: 1 <= i < |parts| && parts[i] != ""
    ensures |DropTrailingEmpty(parts)| >= 2 ==> DropTrailingEmpty(parts)[1] == parts[1]
  {
    var r := DropTrailingEmpty(parts);
    if |r| >= 2 {
      assert parts[|r| - 1] == r[|r| - 1];
    }
  }

  // ---------------------------------------------------------------------------
  // Sizes
  // ---------------------------------------------------------------------------

  /** Java's `long`. */
  newtype int64 = x: int | -0x8000_0000_0000_0000 <= x < 0x8000_0000_0000_0000

  const sizeSuffixes: seq<string> := ["B", "KB", "MB", "GB", "TB", "PB", "EB", "ZB", "YB"]
  /** The number of decimals each suffix is rounded to. */
  const sizeScales: seq<nat> := [0, 0, 1, 1, 1, 2, 2, 2, 2]

  function Pow1024(k: nat): (p: nat)
    ensures p >= 1
  {
    if k == 0 then 1 else 1024 * Pow1024(k - 1)
  }

  /**
   * What `bytesToHumanReadable` shows: the pending text for a negative size;
   * else the size in units of 1024^`unit` bytes, of which `whole` is the
   * integer part, rounded to `scale` decimals and followed by `suffix`.
   */
  datatype HumanReadableSize =
    | Pending
    | Scaled(whole: int, unit: nat, scale: nat, suffix: string)

  /**
   * The suffix choice of `bytesToHumanReadable`: the size is divided by 1024
   * for as long as it is at least 1024, so the unit is the largest k with
   * 1024^k <= bytes (0 for 0 bytes). A `long` never gets past EB, so both
   * tables are indexed within bounds.
   */
  method BytesToHumanReadable(bytes: int64) returns (r: HumanReadableSize)
    ensures r.Pending? <==> bytes < 0
    ensures r.Scaled? ==>
      && r.unit <= 6
      && r.scale == sizeScales[r.unit] && r.suffix == sizeSuffixes[r.unit]
      && (r.unit == 0 || Pow1024(r.unit) <= bytes as int)
      && bytes as int < Pow1024(r.unit + 1)
      && Brackets(bytes as int, r.whole, r.unit)
  {
    if bytes < 0 {
      return Pending;
    }
    var result: int := bytes as int;
    var attachedSuff: nat := 0;
    while result >= 1024 && attachedSuff < |sizeSuffixes|
      invariant attachedSuff <= 6
      invariant 0 <= result
      invariant Brackets(bytes as int, result, attachedSuff)
      invariant attachedSuff > 0 ==> result >= 1
      decreases result
    {
      DivisionStep(bytes as int, result, attachedSuff);
      LongBelow1024To7(bytes as int, attachedSuff, result);
      result := result / 1024;
      attachedSuff := attachedSuff + 1;
    }
    UnitBounds(bytes as int, result, attachedSuff);
    r := Scaled(result, attachedSuff, sizeScales[attachedSuff], sizeSuffixes[attachedSuff]);
  }

  /** `whole` is the integer part of `bytes` counted in units of 1024^k. */
  ghost predicate Brackets(bytes: int, whole: int, k: nat)
  {
    whole * Pow1024(k) <= bytes < (whole + 1) * Pow1024(k)
  }

  /** One turn of the loop: dividing the count by 1024 moves to the next unit. */
  lemma DivisionStep(bytes: int, n: nat, k: nat)
    requires Brackets(bytes, n, k) && n >= 1024
    ensures Brackets(bytes, n / 1024, k + 1) && n / 1024 >= 1
  {
    var p := Pow1024(k);
    var q, m := n / 1024, n % 1024;
    assert n == 1024 * q + m && 0 <= m < 1024;
    calc {
      q * Pow1024(k + 1);
    ==
      (1024 * q) * p;
    <= { MultiplyMonotone(p, 1024 * q, n); }
      n * p;
    }
    calc {
      (n + 1) * p;
    <= { MultiplyMonotone(p, n + 1, 1024 * q + 1024); }
      (1024 * q + 1024) * p;
    ==
      (q + 1) * Pow1024(k + 1);
    }
  }

  /** When the loop stops below 1024 units, the unit is the largest power not above the size. */
  lemma UnitBounds(bytes: int, n: nat, k: nat)
    requires Brackets(bytes, n, k) && n < 1024 && (k > 0 ==> n >= 1)
    ensures k == 0 || Pow1024(k) <= bytes
    ensures bytes < Pow1024(k + 1)
  {
    MultiplyMonotone(Pow1024(k), n + 1, 1024);
    if k > 0 {
      MultiplyMonotone(Pow1024(k), 1, n);
    }
  }

  lemma MultiplyMonotone(p: nat, x: int, y: int)
    requires x <= y
    ensures x * p <= y * p
  {
  }

  /** A `long` of at least 1024 units of 1024^k bytes needs k < 6: 1024^7 exceeds every `long`. */
  lemma LongBelow1024To7(bytes: int, k: nat, n: nat)
    requires bytes < 0x8000_0000_0000_0000
    requires n >= 1024 && n * Pow1024(k) <= bytes
    ensures k < 6
  {
    MultiplyMonotone(Pow1024(k), 1024, n);
    assert Pow1024(6) == 0x1000_0000_0000_0000;
    if 6 <= k {
      PowMonotone(6, k);
    }
  }

  lemma {:induction false} PowMonotone(i: nat, j: nat)
    requires i <= j
    ensures Pow1024(i) <= Pow1024(j)
    decreases j
  {
    if i < j {
      PowMonotone(i, j - 1);
    }
  }

  // ---------------------------------------------------------------------------
  // Internationalized domain names
  // ---------------------------------------------------------------------------

  /** `java.net.IDN`: the two conversions of a host name, as given functions. */
  datatype IdnConverter = IdnConverter(toASCII: string -> string, toUnicode: string -> string)

  function Convert(idn: IdnConverter, toASCII: bool, host: string): string
  {
    if toASCII then idn.toASCII(host) else idn.toUnicode(host)
  }

  /** The number of dots a URL starts with. */
  function LeadingDots(url: string): (n: nat)
    ensures n <= |url|
    ensures forall i :: 0 <= i < n ==> url[i] == '.'
    ensures n < |url| ==> url[n] != '.'
  {
    if |url| > 0 && url[0] == '.' then 1 + LeadingDots(url[1..]) else 0
  }

  /**
   * Where the host of a URL without leading dots lies: it starts just past the
   * first "//", or else just past the first '@', or else at the beginning, and
   * runs up to the next '/' or to the end. The host holds no '/', and what
   * follows it is empty or starts with '/'.
   */
  function HostSpan(u: string): (span: (int, int))
    ensures 0 <= span.0 <= span.1 <= |u|
    ensures Contains(u, "//") ==> span.0 == IndexOf(u, "//") + 2
    ensures !Contains(u, "//") && Contains(u, "@") ==> span.0 == IndexOf(u, "@") + 1
    ensures !Contains(u, "//") && !Contains(u, "@") ==> span.0 == 0
    ensures '/' !in u[span.0..span.1]
    ensures span.1 < |u| ==> u[span.1] == '/'
  {
    var hostStart :=
      if Contains(u, "//") then IndexOf(u, "//") + 2
      else if Contains(u, "@") then IndexOf(u, "@") + 1
      else 0;
    var tail := u[hostStart..];
    var hostEnd := IndexOf(tail, "/");
    UpToSlash(tail, hostEnd);
    if hostEnd == -1 then
      (hostStart, |u|)
    else
      assert u[hostStart..hostStart + hostEnd] == tail[..hostEnd];
      (hostStart, hostStart + hostEnd)
  }

  /** What lies before the first '/' holds none. */
  lemma UpToSlash(t: string, e: int)
    requires e == IndexOf(t, "/")
    ensures e == -1 ==> '/' !in t
    ensures e != -1 ==> 0 <= e < |t| && t[e] == '/' && '/' !in t[..e]
  {
    OccursSingle(t, '/');
  }

  /**
   * The host start as `convertIdn` computes it: whether a "//" is present is
   * asked of `urlNoDots`, but both positions are looked up in `url`.
   */
  function HostStart(url: string, urlNoDots: string): (hostStart: int)
    ensures 0 <= hostStart
    ensures Contains(urlNoDots, "//") && Contains(url, "//") ==> hostStart >= 2 && Occurs(url, "//", hostStart - 2)
    ensures !Contains(urlNoDots, "//") && Contains(url, "@") ==> 1 <= hostStart <= |url| && url[hostStart - 1] == '@'
    ensures !Contains(urlNoDots, "//") && !Contains(url, "@") ==> hostStart == 0
    ensures Contains(urlNoDots, "//") && Contains(url, "//") ==> hostStart <= |url|
    ensures !Contains(urlNoDots, "//") ==> hostStart <= |url|
    // `indexOf` picks the first occurrence
    ensures Contains(urlNoDots, "//") && Contains(url, "//") ==>
      forall j :: 0 <= j < hostStart - 2 ==> !Occurs(url, "//", j)
    ensures !Contains(urlNoDots, "//") && Contains(url, "@") ==> '@' !in url[..hostStart - 1]
  {
    if Contains(urlNoDots, "//") then IndexOf(url, "//") + 2
    else if Contains(url, "@") then OccursSingle(url, '@'); IndexOf(url, "@") + 1
    else 0
  }

  /**
   * The URL with its host converted: the leading dots, the part before the
   * host and the part after it are kept as they are.
   */
  function ConvertedUrl(url: string, toASCII: bool, idn: IdnConverter): string
  {
    var n := LeadingDots(url);
    var rest := url[n..];
    var span := HostSpan(rest);
    url[..n] + rest[..span.0] + Convert(idn, toASCII, rest[span.0..span.1]) + rest[span.1..]
  }

  /**
   * `convertIdn` with the leading dots stripped one by one from the remaining
   * text and the host located in that text.
   */
  method ConvertIdn(url: string, toASCII: bool, idn: IdnConverter) returns (r: string)
    ensures r == ConvertedUrl(url, toASCII, idn)
  {
    var urlNoDots := url;
    var dots := "";
    while |urlNoDots| > 0 && urlNoDots[0] == '.'
      invariant |dots| <= |url| && urlNoDots == url[|dots|..]
      invariant forall i :: 0 <= i < |dots| ==> dots[i] == '.' && url[i] == '.'
      decreases |urlNoDots|
    {
      urlNoDots := urlNoDots[1..];
      dots := dots + ".";
    }
    DotsAreLeading(url, |dots|);
    assert dots == url[..|dots|];
    var span := HostSpan(urlNoDots);
    r := dots + urlNoDots[..span.0] + Convert(idn, toASCII, urlNoDots[span.0..span.1]) + urlNoDots[span.1..];
  }

  lemma {:induction false} DotsAreLeading(url: string, k: nat)
    requires k <= |url|
    requires forall i :: 0 <= i < k ==> url[i] == '.'
    requires k < |url| ==> url[k] != '.'
    ensures k == LeadingDots(url)
  {
    if k > 0 {
      assert url[0] == '.';
      DotsAreLeading(url[1..], k - 1);
    }
  }

  lemma Reassembled(prefix: string, s: string, a: int, b: int)
    requires 0 <= a <= b <= |s|
    ensures prefix + s[..a] + s[a..b] + s[b..] == prefix + s
  {
    assert s[..a] + s[a..b] + s[b..] == s;
  }

  lemma ConvertIdnIdentity(url: string, toASCII: bool, idn: IdnConverter)
    requires forall h :: idn.toASCII(h) == h
    requires forall h :: idn.toUnicode(h) == h
    ensures ConvertedUrl(url, toASCII, idn) == url
  {
    var n := LeadingDots(url);
    var rest := url[n..];
    var span := HostSpan(rest);
    var host := rest[span.0..span.1];
    IdentityConvert(toASCII, idn, host);
    Reassembled(url[..n], rest, span.0, span.1);
    assert url[..n] + rest == url;
  }

  lemma IdentityConvert(toASCII: bool, idn: IdnConverter, host: string)
    requires forall h :: idn.toASCII(h) == h
    requires forall h :: idn.toUnicode(h) == h
    ensures Convert(idn, toASCII, host) == host
  {
  }

  /** A text without `c` holds no pattern that starts with `c`. */
  lemma AbsentFirstChar(s: string, pattern: string, c: char)
    requires |pattern| >= 1 && pattern[0] == c && c !in s
    ensures !Contains(s, pattern)
  {
    var i := IndexOf(s, pattern);
    if i != -1 {
      assert false;
    }
  }

  /** What `convertIdn` can end with. */
  datatype IdnOutcome =
    | Converted(url: string)
    | Threw(exceptionClass: string)
    | NeverReturns

  const StringIndexOutOfBounds := "StringIndexOutOfBoundsException"

  /**
   * The host span `convertIdn` cuts from `urlNoDots`, its bounds computed as
   * written: the start from positions in `url`, the end as the start plus the
   * distance to the next '/' in `url`, or the length of `urlNoDots` when there
   * is none. None when the cut is out of bounds.
   */
  function AsWrittenHostSpan(url: string, urlNoDots: string): (span: Option<(int, int)>)
    ensures span.Some? ==> 0 <= span.value.0 <= span.value.1 <= |urlNoDots|
  {
    var hostStart := HostStart(url, urlNoDots);
    if hostStart > |url| then None
    else
      var hostEnd := IndexOf(url[hostStart..], "/");
      var hostEnd := if hostEnd == -1 then |urlNoDots| else hostStart + hostEnd;
      if hostStart <= hostEnd <= |urlNoDots| then Some((hostStart, hostEnd)) else None
  }

  /** The part of `convertIdn` after its dot loop, as written. */
  function AsWrittenAfterDots(url: string, urlNoDots: string, dots: string, toASCII: bool, idn: IdnConverter)
    : (r: IdnOutcome)
    ensures !r.NeverReturns?
    ensures r.Threw? <==> AsWrittenHostSpan(url, urlNoDots).None?
    ensures r.Threw? ==> r.exceptionClass == StringIndexOutOfBounds
    // only the cut host is converted: the dots, what precedes the cut and what follows it are kept
    ensures r.Converted? ==>
      var span := AsWrittenHostSpan(url, urlNoDots).value;
      && |r.url| >= |dots| + span.0 + (|urlNoDots| - span.1)
      && r.url[..|dots| + span.0] == dots + urlNoDots[..span.0]
      && r.url[|r.url| - (|urlNoDots| - span.1)..] == urlNoDots[span.1..]
      && r.url[|dots| + span.0..|r.url| - (|urlNoDots| - span.1)] == Convert(idn, toASCII, urlNoDots[span.0..span.1])
  {
    match AsWrittenHostSpan(url, urlNoDots)
    case None => Threw(StringIndexOutOfBounds)
    case Some(span) =>
      Converted(dots + urlNoDots[..span.0] + Convert(idn, toASCII, urlNoDots[span.0..span.1]) + urlNoDots[span.1..])
  }

  /**
   * `convertIdn` as written: its dot loop slices the original `url` on every
   * turn, so it strips at most one dot, and a URL starting with two dots keeps
   * the loop turning for ever.
   */
  method ConvertIdnAsWritten(url: string, toASCII: bool, idn: IdnConverter) returns (r: IdnOutcome)
    ensures |url| >= 2 && url[0] == '.' && url[1] == '.' ==> r == NeverReturns
    ensures |url| >= 1 && url[0] == '.' && (|url| == 1 || url[1] != '.') ==>
      r == AsWrittenAfterDots(url, url[1..], ".", toASCII, idn)
    ensures (|url| == 0 || url[0] != '.') ==> r == AsWrittenAfterDots(url, url, "", toASCII, idn)
  {
    var urlNoDots := url;
    var dots := "";
    while |urlNoDots| > 0 && urlNoDots[0] == '.'
      invariant (urlNoDots == url && dots == "") || (|url| >= 1 && urlNoDots == url[1..] && dots == ".")
      invariant (|url| == 0 || url[0] != '.') ==> urlNoDots == url && dots == ""
      decreases |urlNoDots|
    {
      var next := url[1..];
      if next == urlNoDots {
        // the turn would leave `urlNoDots` as it is, so the loop condition holds for ever
        return NeverReturns;
      }
      urlNoDots := next;
      dots := dots + ".";
    }
    r := AsWrittenAfterDots(url, urlNoDots, dots, toASCII, idn);
  }

  /** Without a leading dot, `convertIdn` as written is the corrected conversion. */
  lemma AsWrittenAgreesWithoutDots(url: string, toASCII: bool, idn: IdnConverter)
    requires |url| == 0 || url[0] != '.'
    ensures AsWrittenAfterDots(url, url, "", toASCII, idn) == Converted(ConvertedUrl(url, toASCII, idn))
  {
    assert LeadingDots(url) == 0;
    assert url[0..] == url;
    assert AsWrittenHostSpan(url, url) == Some(HostSpan(url));
  }

  /** `user@host` after one dot, with no '@' in the user name and no '/' anywhere. */
  ghost predicate DotUserHost(url: string, urlNoDots: string, user: string, host: string)
  {
    && urlNoDots == user + "@" + host && url == "." + urlNoDots
    && '@' !in user && '/' !in user && '/' !in host
    && (|user| == 0 || user[0] != '.')
  }

  /** The first '@' of `user@host` is the one after the user name. */
  lemma FirstAt(u: string, user: string, host: string)
    requires u == user + "@" + host && '@' !in user
    ensures IndexOf(u, "@") == |user|
  {
    OccursSingle(u, '@');
    assert u[|user|] == '@';
    forall j | 0 <= j < |user| ensures u[j] != '@' {
      assert u[j] == user[j];
    }
  }

  /**
   * With one leading dot, `convertIdn` as written starts the host one place too
   * far: of `.user@host` it hands the converter `host` without its first
   * letter, where the corrected conversion hands it all of `host`; and when
   * the host is empty (".a@") the cut starts past its end and throws.
   */
  lemma AsWrittenDotShiftsHost(url: string, urlNoDots: string, user: string, host: string,
                               toASCII: bool, idn: IdnConverter)
    requires DotUserHost(url, urlNoDots, user, host)
    ensures HostSpan(urlNoDots) == (|user| + 1, |urlNoDots|)
    ensures urlNoDots[|user| + 1..] == host
    ensures host != [] ==> AsWrittenHostSpan(url, urlNoDots) == Some((|user| + 2, |urlNoDots|))
    ensures host != [] ==> urlNoDots[|user| + 2..] == host[1..]
    ensures host == [] ==> AsWrittenAfterDots(url, urlNoDots, ".", toASCII, idn) == Threw(StringIndexOutOfBounds)
    // end to end: the as-written code converts `host[1..]`, the corrected one all of `host`
    ensures host != [] ==>
      AsWrittenAfterDots(url, urlNoDots, ".", toASCII, idn)
      == Converted("." + user + "@" + host[..1] + Convert(idn, toASCII, host[1..]))
    ensures ConvertedUrl(url, toASCII, idn) == "." + user + "@" + Convert(idn, toASCII, host)
  {
    FirstAt(urlNoDots, user, host);
    assert url[1..] == urlNoDots;
    FirstAtShifted(url, urlNoDots);
    assert '/' !in urlNoDots;
    assert '/' !in url;
    AbsentFirstChar(urlNoDots, "//", '/');
    AbsentFirstChar(urlNoDots[|user| + 1..], "/", '/');
    AbsentFirstChar(url[|user| + 2..], "/", '/');
    assert urlNoDots[|user| + 1..] == host;
    CorrectedDotUserHost(url, urlNoDots, user, host, toASCII, idn);
    if host != [] {
      AsWrittenDotUserHost(url, urlNoDots, user, host, toASCII, idn);
    }
  }

  /** The corrected conversion of `.user@host` converts all of `host`. */
  lemma CorrectedDotUserHost(url: string, urlNoDots: string, user: string, host: string,
                             toASCII: bool, idn: IdnConverter)
    requires DotUserHost(url, urlNoDots, user, host)
    requires HostSpan(urlNoDots) == (|user| + 1, |urlNoDots|)
    ensures ConvertedUrl(url, toASCII, idn) == "." + user + "@" + Convert(idn, toASCII, host)
  {
    DotsAreLeading(url, 1);
    assert url[..1] == "." && url[1..] == urlNoDots;
    assert urlNoDots[..|user| + 1] == user + "@";
    assert urlNoDots[|user| + 1..|urlNoDots|] == host;
    assert urlNoDots[|urlNoDots|..] == [];
  }

  /** The as-written conversion of `.user@host` converts `host` without its first letter. */
  lemma AsWrittenDotUserHost(url: string, urlNoDots: string, user: string, host: string,
                             toASCII: bool, idn: IdnConverter)
    requires urlNoDots == user + "@" + host && host != []
    requires AsWrittenHostSpan(url, urlNoDots) == Some((|user| + 2, |urlNoDots|))
    ensures AsWrittenAfterDots(url, urlNoDots, ".", toASCII, idn)
      == Converted("." + user + "@" + host[..1] + Convert(idn, toASCII, host[1..]))
  {
    var a, n := |user| + 2, |urlNoDots|;
    var head := urlNoDots[..a];
    assert head == user + "@" + host[..1];
    assert urlNoDots[a..n] == host[1..];
    assert urlNoDots[n..] == [];
    var c := Convert(idn, toASCII, host[1..]);
    assert AsWrittenAfterDots(url, urlNoDots, ".", toASCII, idn) == Converted("." + head + c + []);
    assert "." + head + c + [] == "." + user + "@" + host[..1] + c;
  }

  /** Past a leading dot every position moves by one. */
  lemma FirstAtShifted(url: string, rest: string)
    requires |url| >= 1 && url[0] == '.' && url[1..] == rest
    ensures IndexOf(url, "@") == if IndexOf(rest, "@") == -1 then -1 else IndexOf(rest, "@") + 1
  {
    OccursSingle(url, '@');
    OccursSingle(rest, '@');
    assert forall j :: 1 <= j < |url| ==> url[j] == rest[j - 1];
  }
}
