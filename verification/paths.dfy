/** File-name handling shared by the three scripts: POSIX `os.path.splitext`
    and the stem `os.path.splitext(name)[0]` every output name is built from. */
module Paths {

  /** Python's `s.rfind(c)` for one character: the last index holding `c`,
      or -1 when there is none. */
  function RFind(s: string, c: char): (r: int)
    ensures -1 <= r < |s|
    ensures r >= 0 ==> s[r] == c
    ensures forall i :: r < i < |s| ==> s[i] != c
    decreases |s|
  {
    if |s| == 0 then -1
    else if s[|s| - 1] == c then |s| - 1
    else RFind(s[..|s| - 1], c)
  }

  /** Characters appended after the last `c` do not move it. */
  lemma {:induction false} RFindAppend(s: string, t: string, c: char)
    requires c !in t
    ensures RFind(s + t, c) == RFind(s, c)
    decreases |t|
  {
    if |t| > 0 {
      var t' := t[..|t| - 1];
      assert t[|t| - 1] in t;
      assert forall x :: x in t' ==> x in t;
      assert (s + t)[..|s + t| - 1] == s + t';
      RFindAppend(s, t', c);
    } else {
      assert s + t == s;
    }
  }

  /** The leading-dot loop of `_splitext`: some character in `p[lo..hi]`
      is not a dot. */
  predicate NonDotIn(p: string, lo: int, hi: int)
    requires 0 <= lo && hi <= |p|
    decreases hi - lo
  {
    if lo >= hi then false
    else if p[lo] != '.' then true
    else NonDotIn(p, lo + 1, hi)
  }

  lemma {:induction false} NonDotInIff(p: string, lo: int, hi: int)
    requires 0 <= lo && hi <= |p|
    ensures NonDotIn(p, lo, hi) <==> (exists k :: lo <= k < hi && p[k] != '.')
    decreases hi - lo
  {
    if lo < hi {
      NonDotInIff(p, lo + 1, hi);
    }
  }

  /** POSIX `os.path.splitext(p)`: split at the last dot of the last path
      component, except that dots leading that component never start an
      extension. Returns (root, ext). */
  function SplitExt(p: string): (r: (string, string))
    ensures r.0 + r.1 == p
    ensures r.1 == [] || r.1[0] == '.'
    ensures forall i :: 0 < i < |r.1| ==> r.1[i] != '.' && r.1[i] != '/'
  {
    var sepIndex := RFind(p, '/');
    var dotIndex := RFind(p, '.');
    if dotIndex > sepIndex && NonDotIn(p, sepIndex + 1, dotIndex) then
      (p[..dotIndex], p[dotIndex..])
    else
      (p, "")
  }

  /** `os.path.splitext(name)[0]`. */
  function Stem(name: string): string {
    SplitExt(name).0
  }

  /** The last path component of `s` has a character other than a dot. */
  predicate HasStem(s: string) {
    exists k :: RFind(s, '/') < k < |s| && s[k] != '.'
  }

  /** Appending "." + ext to a name whose last component is not all dots
      makes ext its extension and the name its root, so
      `splitext(stem + ".txt")` gives back `stem`. */
  lemma SplitExtAppend(s: string, ext: string)
    requires HasStem(s)
    requires forall i :: 0 <= i < |ext| ==> ext[i] != '.' && ext[i] != '/'
    ensures SplitExt(s + "." + ext) == (s, "." + ext)
  {
    var p := s + "." + ext;
    var sepS := RFind(s, '/');
    var sepIndex := RFind(p, '/');
    var dotIndex := RFind(p, '.');
    assert p[|s|] == '.';
    assert dotIndex == |s|;
    RFindAppend(s, "." + ext, '/');
    var k :| sepS < k < |s| && s[k] != '.';
    NonDotInIff(p, sepIndex + 1, dotIndex);
    assert p[k] != '.';
    assert p[..dotIndex] == s;
    assert p[dotIndex..] == "." + ext;
  }

  /** Dots that lead the last path component never start an extension:
      when every dot of that component has only dots before it within the
      component, the name is all root. */
  lemma SplitExtNoExt(p: string)
    requires forall d :: RFind(p, '/') < d < |p| && p[d] == '.' ==>
      forall k :: RFind(p, '/') < k < d ==> p[k] == '.'
    ensures SplitExt(p) == (p, "")
  {
    if RFind(p, '.') > RFind(p, '/') {
      NonDotInIff(p, RFind(p, '/') + 1, RFind(p, '.'));
    }
  }

  /** Otherwise the split is at the last dot: when the last dot lies in the
      last path component and some character before it in that component
      is not a dot, that dot starts the extension. */
  lemma SplitExtAtLastDot(p: string)
    requires RFind(p, '/') < RFind(p, '.')
    requires exists k :: RFind(p, '/') < k < RFind(p, '.') && p[k] != '.'
    ensures SplitExt(p) == (p[..RFind(p, '.')], p[RFind(p, '.')..])
  {
    NonDotInIff(p, RFind(p, '/') + 1, RFind(p, '.'));
  }

  /** The examples of Python's `os.path.splitext` documentation. */
  lemma SplitExtExampleDots()
    ensures SplitExt("foo.bar.exe") == ("foo.bar", ".exe")
  {
    RFindAppend("foo.bar.", "exe", '.');
    assert "foo.bar." + "exe" == "foo.bar.exe";
    RFindAppend("", "foo.bar.exe", '/');
    assert "" + "foo.bar.exe" == "foo.bar.exe";
    assert RFind("foo.bar.exe", '.') == 7;
    assert NonDotIn("foo.bar.exe", 0, 7);
    assert "foo.bar.exe"[..7] == "foo.bar";
    assert "foo.bar.exe"[7..] == ".exe";
  }

  lemma SplitExtExampleDirectory()
    ensures SplitExt("/foo/bar.exe") == ("/foo/bar", ".exe")
  {
    RFindAppend("/foo/", "bar.exe", '/');
    assert "/foo/" + "bar.exe" == "/foo/bar.exe";
    RFindAppend("/foo/bar.", "exe", '.');
    assert "/foo/bar." + "exe" == "/foo/bar.exe";
    assert RFind("/foo/bar.exe", '/') == 4;
    assert RFind("/foo/bar.exe", '.') == 8;
    assert NonDotIn("/foo/bar.exe", 5, 8);
    assert "/foo/bar.exe"[..8] == "/foo/bar";
    assert "/foo/bar.exe"[8..] == ".exe";
  }

  lemma SplitExtExampleHidden()
    ensures SplitExt(".cshrc") == (".cshrc", "")
  {
    RFindAppend(".", "cshrc", '.');
    assert "." + "cshrc" == ".cshrc";
    RFindAppend("", ".cshrc", '/');
    assert "" + ".cshrc" == ".cshrc";
  }

  lemma SplitExtExampleLeadingDots()
    ensures SplitExt("/foo/....jpg") == ("/foo/....jpg", "")
  {
    RFindAppend("/foo/", "....jpg", '/');
    assert "/foo/" + "....jpg" == "/foo/....jpg";
    RFindAppend("/foo/....", "jpg", '.');
    assert "/foo/...." + "jpg" == "/foo/....jpg";
    NonDotInIff("/foo/....jpg", 5, 8);
  }
}
