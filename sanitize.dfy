/** The export file name of a processed image (src/components/BgRemoval.tsx,
    handleDownloadOne and handleDownloadAll). The source computes it with three
    regular-expression replacements and a fixed suffix:

      base     = name.replace(/\.[^.]+$/, "")        -- StripExtension
      safeName = base.replace(/[^\w\s-]/g, "")        -- Filter(_, Kept)
                     .replace(/\s+/g, "_")            -- CollapseSpaces
      file     = safeName + "-no-bg.png"              -- ExportName

    `\w` and `\s` are JavaScript's classes (without the `u` flag): `\w` is
    [A-Za-z0-9_] and `\s` is the fixed set of white-space and line-terminator
    code points in IsSpace. */
module Sanitize {
  import opened Seqs

  const ExportSuffix: string := "-no-bg.png"

  /** JavaScript's `\w`. */
  predicate IsWordChar(c: char)
  {
    ('A' <= c <= 'Z') || ('a' <= c <= 'z') || ('0' <= c <= '9') || c == '_'
  }

  /** JavaScript's `\s`: TAB, LF, VT, FF, CR, SPACE, NBSP, OGHAM SPACE MARK,
      U+2000..U+200A, LINE and PARAGRAPH SEPARATOR, NNBSP, MMSP,
      IDEOGRAPHIC SPACE and the byte-order mark. */
  predicate IsSpace(c: char)
  {
    ('\t' <= c <= '\r') || c == ' ' || c == '\U{00A0}' || c == '\U{1680}'
    || ('\U{2000}' <= c <= '\U{200A}') || c == '\U{2028}' || c == '\U{2029}'
    || c == '\U{202F}' || c == '\U{205F}' || c == '\U{3000}' || c == '\U{FEFF}'
  }

  /** The characters that `/[^\w\s-]/g` does not delete. */
  predicate Kept(c: char)
  {
    IsWordChar(c) || IsSpace(c) || c == '-'
  }

  /** The alphabet of a sanitised base name: [A-Za-z0-9_-]. */
  predicate IsSafeChar(c: char)
  {
    IsWordChar(c) || c == '-'
  }

  /** `/\.[^.]+$/` matches at position i: a dot, then at least one character,
      none of them a dot, up to the end of the string. */
  ghost predicate ExtensionAt(s: string, i: int)
  {
    0 <= i && i + 1 < |s| && s[i] == '.' && forall j :: i < j < |s| ==> s[j] != '.'
  }

  /** The position of the last dot, if any. */
  function LastDot(s: string): (r: Option<nat>)
    ensures r.Some? ==> r.value < |s| && s[r.value] == '.'
                        && forall j :: r.value < j < |s| ==> s[j] != '.'
    ensures r.None? ==> forall j :: 0 <= j < |s| ==> s[j] != '.'
  {
    if s == [] then None
    else if s[|s| - 1] == '.' then Some(|s| - 1)
    else LastDot(s[..|s| - 1])
  }

  /** `name.replace(/\.[^.]+$/, "")`: the regular expression matches at most
      once, and when it does the result is the text before the match;
      otherwise the name is returned unchanged (a name ending in a dot, or
      without a dot, keeps everything). */
  function StripExtension(name: string): (r: string)
    ensures (exists i :: ExtensionAt(name, i) && r == name[..i])
            || (r == name && forall i :: !ExtensionAt(name, i))
    ensures forall i, k :: ExtensionAt(name, i) && ExtensionAt(name, k) ==> i == k
  {
    match LastDot(name)
    case Some(d) => if d + 1 < |name| then name[..d] else name
    case None => name
  }

  /** Drops the white space at the front: what `\s+` consumes. */
  function SkipSpaces(s: string): (r: string)
    ensures |r| <= |s| && forall c :: c in r ==> c in s
    ensures r == [] || !IsSpace(r[0])
    ensures s != [] && IsSpace(s[0]) ==> |r| < |s|
    ensures s == [] || !IsSpace(s[0]) ==> r == s
  {
    if s != [] && IsSpace(s[0]) then SkipSpaces(s[1..]) else s
  }

  /** Only white space is skipped: the result is the suffix of `s` after its
      leading run of white space. */
  lemma {:induction false} SkipSpacesSuffix(s: string)
    ensures SkipSpaces(s) == s[|s| - |SkipSpaces(s)|..]
    ensures forall j :: 0 <= j < |s| - |SkipSpaces(s)| ==> IsSpace(s[j])
    decreases |s|
  {
    if s != [] && IsSpace(s[0]) {
      SkipSpacesSuffix(s[1..]);
      var r := SkipSpaces(s[1..]);
      assert s[1..][|s| - 1 - |r|..] == s[|s| - |r|..];
    }
  }

  /** `s.replace(/\s+/g, "_")`: every maximal run of white space becomes one
      underscore. */
  function CollapseSpaces(s: string): (r: string)
    ensures |r| <= |s|
    decreases |s|
  {
    if s == [] then []
    else if IsSpace(s[0]) then "_" + CollapseSpaces(SkipSpaces(s))
    else [s[0]] + CollapseSpaces(s[1..])
  }

  /** The collapsed string holds no white space, and every other character
      comes from the input. */
  lemma {:induction false} CollapseSpacesAlphabet(s: string)
    ensures forall c :: c in CollapseSpaces(s) ==> !IsSpace(c) && (c == '_' || c in s)
    decreases |s|
  {
    if s != [] {
      if IsSpace(s[0]) {
        CollapseSpacesAlphabet(SkipSpaces(s));
      } else {
        CollapseSpacesAlphabet(s[1..]);
        assert forall c :: c in s[1..] ==> c in s;
      }
    }
  }

  /** A run of white space is skipped whole, up to the first character
      that is not white space. */
  lemma {:induction false} SkipSpacesRun(w: string, b: string)
    requires forall x :: x in w ==> IsSpace(x)
    requires b == [] || !IsSpace(b[0])
    ensures SkipSpaces(w + b) == b
    decreases |w|
  {
    if w == [] {
      assert w + b == b;
    } else {
      assert w[0] in w && (w + b)[0] == w[0];
      assert (w + b)[1..] == w[1..] + b;
      assert forall x :: x in w[1..] ==> x in w;
      SkipSpacesRun(w[1..], b);
    }
  }

  /** The `+` of `/\s+/g`: a whole run of white space, however long,
      becomes a single underscore. */
  lemma CollapseRun(w: string, b: string)
    requires |w| > 0 && forall x :: x in w ==> IsSpace(x)
    requires b == [] || !IsSpace(b[0])
    ensures CollapseSpaces(w + b) == "_" + CollapseSpaces(b)
  {
    assert w[0] in w && (w + b)[0] == w[0];
    SkipSpacesRun(w, b);
  }

  /** Two spaces between two letters give one underscore, not two. */
  lemma TwoSpacesOneUnderscore()
    ensures CollapseSpaces("a  b") == "a_b"
  {
    var w, b := "  ", "b";
    CollapseRun(w, b);
    CollapseSpacesNoSpace(b);
    assert "a  b" == ['a'] + (w + b);
    CollapseKeepsHead('a', w + b);
  }

  /** A string without white space is left as it is. */
  lemma {:induction false} CollapseSpacesNoSpace(s: string)
    requires forall c :: c in s ==> !IsSpace(c)
    ensures CollapseSpaces(s) == s
  {
    if s != [] {
      assert s[0] in s;
      assert forall c :: c in s[1..] ==> c in s;
      CollapseSpacesNoSpace(s[1..]);
    }
  }

  /** The filter-and-collapse stage applied to a base name. */
  function Clean(base: string): string
  {
    CollapseSpaces(Filter(base, Kept))
  }

  /** A cleaned name is over [A-Za-z0-9_-]: the filter keeps word
      characters, white space and '-', and the collapse replaces the white
      space. */
  lemma CleanAlphabet(base: string)
    ensures forall c :: c in Clean(base) ==> IsSafeChar(c)
  {
    CollapseSpacesAlphabet(Filter(base, Kept));
  }

  /** `safeName`: the sanitised base of an item's name. */
  function SafeBase(name: string): string
  {
    Clean(StripExtension(name))
  }

  /** `${safeName}-no-bg.png`: the file name under which a processed image
      is downloaded or stored in the archive. */
  function ExportName(name: string): string
  {
    SafeBase(name) + ExportSuffix
  }

  /** An export name is a base over [A-Za-z0-9_-] followed by "-no-bg.png",
      and the base is the sanitised name. */
  lemma ExportNameShape(name: string)
    ensures |ExportName(name)| >= |ExportSuffix|
    ensures ExportName(name)[|ExportName(name)| - |ExportSuffix|..] == ExportSuffix
    ensures ExportName(name)[..|ExportName(name)| - |ExportSuffix|] == SafeBase(name)
    ensures forall k :: 0 <= k < |ExportName(name)| - |ExportSuffix| ==> IsSafeChar(ExportName(name)[k])
  {
    var base := SafeBase(name);
    CleanAlphabet(StripExtension(name));
    assert forall k :: 0 <= k < |base| ==> base[k] in base;
  }

  /** Re-applying the filter-and-collapse stage to its own output changes
      nothing. */
  lemma CleanIdempotent(base: string)
    ensures Clean(Clean(base)) == Clean(base)
  {
    var once := Clean(base);
    CleanAlphabet(base);
    assert forall c :: c in once ==> Kept(c) && !IsSpace(c);
    FilterKeepsAll(once, Kept);
    CollapseSpacesNoSpace(once);
  }

  /** A string without dots has no extension to strip. */
  lemma StripExtensionNoDot(s: string)
    requires forall c :: c in s ==> c != '.'
    ensures StripExtension(s) == s
  {
    assert forall j :: 0 <= j < |s| ==> s[j] in s;
  }

  /** The whole sanitiser is idempotent: a sanitised base has no dot, so no
      extension is stripped from it, and its cleaning is the identity. */
  lemma SafeBaseIdempotent(name: string)
    ensures SafeBase(SafeBase(name)) == SafeBase(name)
  {
    var b := SafeBase(name);
    CleanAlphabet(StripExtension(name));
    StripExtensionNoDot(b);
    CleanIdempotent(StripExtension(name));
  }

  /** Only the text after the last dot is stripped, and only when it is not
      empty: "a.b.png" becomes "a.b". */
  lemma StripExtensionOf(base: string, ext: string)
    requires |ext| > 0 && '.' !in ext
    ensures StripExtension(base + "." + ext) == base
  {
    var s := base + "." + ext;
    assert ExtensionAt(s, |base|) by {
      forall j | |base| < j < |s| ensures s[j] != '.' {
        assert s[j] == ext[j - |base| - 1];
        assert s[j] in ext;
      }
    }
    assert s[..|base|] == base;
  }

  /** Names that differ only in their extension get the same export name, so
      export names are not unique: "cat photo.png" and "cat photo.jpg" are
      both saved as "cat_photo-no-bg.png". */
  lemma ExportNameIgnoresExtension(base: string, ext1: string, ext2: string)
    requires |ext1| > 0 && '.' !in ext1
    requires |ext2| > 0 && '.' !in ext2
    ensures ExportName(base + "." + ext1) == ExportName(base + "." + ext2)
  {
    StripExtensionOf(base, ext1);
    StripExtensionOf(base, ext2);
  }

  /** A name with one white-space character between two runs without white
      space gets one underscore in its place. */
  lemma {:induction false} CollapseOneSpace(a: string, c: char, b: string)
    requires forall x :: x in a ==> !IsSpace(x)
    requires forall x :: x in b ==> !IsSpace(x)
    requires IsSpace(c)
    ensures CollapseSpaces(a + [c] + b) == a + "_" + b
  {
    if a == [] {
      assert a + [c] + b == [c] + b;
      CollapseLeadingSpace(c, b);
    } else {
      assert !IsSpace(a[0]) && forall y :: y in a[1..] ==> y in a by {
        assert a[0] in a;
      }
      CollapseOneSpace(a[1..], c, b);
      CollapseNonSpaceHead(a, c, b);
    }
  }

  /** A leading character that is not white space is kept in front of the
      collapsed rest. */
  lemma CollapseNonSpaceHead(a: string, c: char, b: string)
    requires a != [] && !IsSpace(a[0])
    requires CollapseSpaces(a[1..] + [c] + b) == a[1..] + "_" + b
    ensures CollapseSpaces(a + [c] + b) == a + "_" + b
  {
    var t := a[1..] + [c] + b;
    assert a + [c] + b == [a[0]] + t;
    CollapseKeepsHead(a[0], t);
    assert a + "_" + b == [a[0]] + (a[1..] + "_" + b);
  }

  /** Collapsing keeps a leading character that is not white space. */
  lemma CollapseKeepsHead(x: char, t: string)
    requires !IsSpace(x)
    ensures CollapseSpaces([x] + t) == [x] + CollapseSpaces(t)
  {
    assert ([x] + t)[1..] == t;
  }

  /** One leading white-space character before a run without white space
      becomes one underscore. */
  lemma {:induction false} CollapseLeadingSpace(c: char, b: string)
    requires forall x :: x in b ==> !IsSpace(x)
    requires IsSpace(c)
    ensures CollapseSpaces([c] + b) == "_" + b
  {
    var s := [c] + b;
    assert s[1..] == b;
    assert b == [] || b[0] in b;
    assert SkipSpaces(s) == b;
    CollapseSpacesNoSpace(b);
  }
}
