/**
 * Media classification (`TranscriptionHandler.is_media_file`): the
 * lower-cased suffix of a path's final part is one of eight extensions.
 */
module Media {
  import opened Paths

  /** The extensions the handler accepts. */
  const SupportedFormats: set<string> := {".mp3", ".wav", ".mp4", ".mkv", ".mov", ".flv", ".aac", ".m4a"}

  /** The extension sidecar transcripts get. */
  const TranscriptSuffix: string := ".txt"

  /**
   * `str.lower` on one character, for the characters whose lower case is an
   * ASCII letter: A-Z and KELVIN SIGN (U+212A), which lowers to `k`.
   */
  function LowerChar(c: char): (r: char)
    ensures (r == '.') == (c == '.')
    ensures (r == Sep) == (c == Sep)
    ensures !('A' <= r <= 'Z') && r != '\U{212A}'
  {
    if 'A' <= c <= 'Z' then (c as int + 32) as char
    else if c == '\U{212A}' then 'k'
    else c
  }

  /** `str.lower`: the result keeps the length and holds no character that lower-cases further. */
  function Lower(s: string): (r: string)
    ensures |r| == |s|
    ensures forall i :: 0 <= i < |r| ==> !('A' <= r[i] <= 'Z') && r[i] != '\U{212A}'
  {
    seq(|s|, i requires 0 <= i < |s| => LowerChar(s[i]))
  }

  /** `Path(path).suffix.lower() in supported_formats`, for a final part `n`. */
  predicate IsMediaName(n: string) {
    Lower(SuffixOfName(n)) in SupportedFormats
  }

  /** `is_media_file(path)` */
  predicate IsMedia(p: string) {
    IsMediaName(Name(p))
  }

  /** `n` ends in `e`, ignoring case, with at least one character before it. */
  predicate EndsWithExtension(n: string, e: string) {
    |e| < |n| && Lower(n[|n| - |e|..]) == e
  }

  // ---------------------------------------------------------------------------
  // Lower-casing commutes with taking the name and the suffix

  function LowerAll(xs: seq<string>): (r: seq<string>)
    ensures |r| == |xs|
    ensures forall i :: 0 <= i < |xs| ==> r[i] == Lower(xs[i])
  {
    seq(|xs|, i requires 0 <= i < |xs| => Lower(xs[i]))
  }

  lemma {:induction false} SplitLower(s: string)
    ensures Split(Lower(s)) == LowerAll(Split(s))
    decreases |s|
  {
    if s != [] {
      SplitLower(s[1..]);
      assert Lower(s)[1..] == Lower(s[1..]);
      var rest := Split(s[1..]);
      if s[0] != Sep {
        assert Lower([s[0]] + rest[0]) == [LowerChar(s[0])] + Lower(rest[0]);
      }
    }
  }

  lemma {:induction false} KeepLower(xs: seq<string>)
    ensures Keep(LowerAll(xs)) == LowerAll(Keep(xs))
    decreases |xs|
  {
    if xs != [] {
      KeepLower(xs[1..]);
      assert LowerAll(xs)[1..] == LowerAll(xs[1..]);
      assert (Lower(xs[0]) == []) == (xs[0] == []);
      assert Lower(xs[0]) == "." <==> xs[0] == "." by {
        if xs[0] == "." { assert Lower(xs[0]) == "."; }
        if Lower(xs[0]) == "." { assert xs[0][0] == '.'; }
      }
      var head := if xs[0] == [] || xs[0] == "." then [] else [xs[0]];
      assert LowerAll(head + Keep(xs[1..])) == LowerAll(head) + LowerAll(Keep(xs[1..]));
    }
  }

  lemma NameLower(p: string)
    ensures Name(Lower(p)) == Lower(Name(p))
  {
    SplitLower(p);
    KeepLower(Split(p));
  }

  lemma SuffixLower(n: string)
    ensures SuffixOfName(Lower(n)) == Lower(SuffixOfName(n))
  {
    var i := LastIndexOf(n, '.');
    var j := LastIndexOf(Lower(n), '.');
    assert forall k :: 0 <= k < |n| ==> Lower(n)[k] == LowerChar(n[k]);
    assert i == j;
    if 0 < i < |n| - 1 {
      assert Lower(n)[i..] == Lower(n[i..]);
    }
  }

  lemma LowerIdempotent(s: string)
    ensures Lower(Lower(s)) == Lower(s)
  {
  }

  /** Classification ignores case: a path and its lower-cased form classify alike. */
  lemma MediaIgnoresCase(p: string)
    ensures IsMedia(Lower(p)) == IsMedia(p)
  {
    NameLower(p);
    SuffixLower(Name(p));
    LowerIdempotent(SuffixOfName(Name(p)));
  }

  /** Two paths that differ only in letter case (`X.MP3`, `x.mp3`) classify alike. */
  lemma SameClassUpToCase(p: string, q: string)
    requires Lower(p) == Lower(q)
    ensures IsMedia(p) == IsMedia(q)
  {
    MediaIgnoresCase(p);
    MediaIgnoresCase(q);
  }

  // ---------------------------------------------------------------------------
  // An independent description of the classification

  lemma FormatShape(e: string)
    requires e in SupportedFormats
    ensures |e| == 4 && e[0] == '.' && '.' !in e[1..] && Sep !in e
  {
  }

  /**
   * A final part is media exactly when it ends, ignoring case, in one of the
   * supported extensions and has at least one character before it (so a
   * hidden file named `.mp3` is not media).
   */
  lemma MediaIffExtension(n: string)
    ensures IsMediaName(n) <==> exists e :: e in SupportedFormats && EndsWithExtension(n, e)
  {
    if IsMediaName(n) {
      var e := Lower(SuffixOfName(n));
      FormatShape(e);
      assert EndsWithExtension(n, e);
    }
    if e :| e in SupportedFormats && EndsWithExtension(n, e) {
      FormatShape(e);
      var k := |n| - 4;
      assert LowerChar(n[k]) == e[0];
      forall j | k < j < |n| ensures n[j] != '.' {
        assert LowerChar(n[j]) == e[j - k];
        assert e[j - k] in e[1..];
      }
      var i := LastIndexOf(n, '.');
      assert i == k;
      assert SuffixOfName(n) == n[k..];
    }
  }

  // ---------------------------------------------------------------------------
  // Sidecar paths

  /**
   * Every media path has a sidecar path (`with_suffix('.txt')` does not
   * raise), it lies in the same directory, and it is never itself media, so
   * creating a transcript never triggers another transcription.
   */
  lemma SidecarOfMedia(p: string)
    requires IsMedia(p)
    ensures WithSuffix(p, TranscriptSuffix).Success?
    ensures var q := WithSuffix(p, TranscriptSuffix).value;
      && Root(q) == Root(p)
      && |Parts(q)| == |Parts(p)| > 0
      && Parts(q)[..|Parts(q)| - 1] == Parts(p)[..|Parts(p)| - 1]
      && Name(q) == Stem(p) + TranscriptSuffix
      && !IsMedia(q)
      && q != p
  {
    MediaHasName(p);
    var q := WithSuffix(p, TranscriptSuffix).value;
    WithSuffixSameDirectory(p, TranscriptSuffix);
    TranscriptNameNotMedia(Stem(p));
  }

  /** A media path has a final part, so `with_suffix` does not raise on it. */
  lemma MediaHasName(p: string)
    requires IsMedia(p)
    ensures Name(p) != [] && WithSuffix(p, TranscriptSuffix).Success?
  {
    var sfx := SuffixOfName(Name(p));
    assert Lower(sfx) in SupportedFormats;
    assert |Lower(sfx)| == 4;
    assert sfx != [];
  }

  /** A name ending in `.txt` after a non-empty stem is not media. */
  lemma TranscriptNameNotMedia(stem: string)
    requires stem != []
    ensures !IsMediaName(stem + TranscriptSuffix)
  {
    SuffixOfStemPlus(stem, TranscriptSuffix);
    assert Lower(TranscriptSuffix) == TranscriptSuffix;
  }

  /** A path `os.walk` yields is classified by its file name alone, whatever its directory. */
  lemma WalkedFileByName(dir: string, file: string)
    requires IsComponent(file)
    ensures IsMedia(JoinPath(dir, file)) == IsMediaName(file)
  {
    JoinedName(dir, file);
  }
}
