/**
 * The extension policy of the request handler: filepath.Ext of the
 * resolved path, lowercased, looked up first in the blocklist and then in
 * the allowlist. Anything not allowlisted is refused.
 */
module Extensions {
  import opened Strings

  /** The allowlist `allowedExts`. */
  const AllowedExts: set<string> :=
    {".html", ".css", ".js", ".png", ".jpg", ".jpeg", ".gif", ".svg", ".webp", ".ico", ".json", ".txt", ".md"}

  /** The blocklist `blockedExts`. */
  const BlockedExts: set<string> := {".log"}

  /** Position `i` of `path` lies in its last element: no '/' from there on. */
  predicate InLastElement(path: string, i: int)
  {
    0 <= i < |path| && '/' !in path[i..]
  }

  /**
   * filepath.Ext: the suffix that starts at the last '.' of the last
   * element, or "" when that element has no '.'.
   */
  function Ext(path: string): (e: string)
    ensures e != "" ==> HasSuffix(path, e) && e[0] == '.' && '/' !in e && '.' !in e[1..]
    ensures e == "" ==> forall i :: InLastElement(path, i) ==> path[i] != '.'
    decreases |path|
  {
    if |path| == 0 then ""
    else
      var last := path[|path| - 1];
      if last == '/' then ""
      else if last == '.' then [last]
      else
        var e := Ext(path[..|path| - 1]);
        assert forall i :: 0 <= i < |path| - 1 ==> path[i..] == path[..|path| - 1][i..] + [last];
        if e == "" then ""
        else
          assert path[..|path| - 1][|path| - 1 - |e|..] + [last] == path[|path| - 1 - |e|..];
          e + [last]
  }

  /** U+0130 LATIN CAPITAL LETTER I WITH DOT ABOVE, whose lowercase form is 'i'. */
  const CapitalDottedI: char := '\U{0130}'

  /** U+212A KELVIN SIGN, whose lowercase form is 'k'. */
  const KelvinSign: char := '\U{212A}'

  /**
   * unicode.ToLower for the characters it maps into ASCII: the capitals
   * 'A'..'Z', U+0130 and U+212A. Every other character is kept.
   */
  function LowerChar(c: char): char
  {
    if 'A' <= c <= 'Z' then (c as int - 'A' as int + 'a' as int) as char
    else if c == CapitalDottedI then 'i'
    else if c == KelvinSign then 'k'
    else c
  }

  /**
   * strings.ToLower, rune by rune: no ASCII capital is left, each capital
   * becomes its small letter, U+0130 becomes 'i' and U+212A 'k', and every
   * other character is kept.
   */
  function ToLower(s: string): (r: string)
    ensures |r| == |s|
    ensures forall i :: 0 <= i < |r| ==> !('A' <= r[i] <= 'Z')
    ensures forall i :: 0 <= i < |s| && 'A' <= s[i] <= 'Z' ==> r[i] as int == s[i] as int + ('a' as int - 'A' as int)
    ensures forall i :: 0 <= i < |s| && s[i] == CapitalDottedI ==> r[i] == 'i'
    ensures forall i :: 0 <= i < |s| && s[i] == KelvinSign ==> r[i] == 'k'
    ensures forall i :: 0 <= i < |s| && !('A' <= s[i] <= 'Z') && s[i] != CapitalDottedI && s[i] != KelvinSign ==> r[i] == s[i]
  {
    seq(|s|, i requires 0 <= i < |s| => LowerChar(s[i]))
  }

  /** Lowercasing twice is lowercasing once. */
  lemma ToLowerIdempotent(s: string)
    ensures ToLower(ToLower(s)) == ToLower(s)
  {
  }

  /** Lowercasing a string and one more character. */
  lemma ToLowerAppend(s: string, c: char)
    ensures ToLower(s + [c]) == ToLower(s) + [LowerChar(c)]
  {
    var l, r := ToLower(s + [c]), ToLower(s) + [LowerChar(c)];
    assert |l| == |r|;
    forall i | 0 <= i < |l| ensures l[i] == r[i] {
      if i < |s| {
        assert (s + [c])[i] == s[i];
      }
    }
  }

  /** Lowercasing keeps '.' and '/' in place, so it commutes with Ext. */
  lemma {:induction false} ExtOfLower(path: string)
    ensures Ext(ToLower(path)) == ToLower(Ext(path))
    decreases |path|
  {
    if |path| > 0 {
      var n := |path|;
      var init, last := path[..n - 1], path[n - 1];
      var lower := ToLower(path);
      assert lower[n - 1] == LowerChar(last);
      assert lower[..n - 1] == ToLower(init);
      ExtOfLower(init);
      var e := Ext(init);
      if last == '/' {
        assert Ext(path) == "" && Ext(lower) == "";
      } else if last == '.' {
        assert Ext(path) == [last] && Ext(lower) == [last];
        assert ToLower([last]) == [last];
      } else {
        assert LowerChar(last) != '/' && LowerChar(last) != '.';
        assert Ext(path) == if e == "" then "" else e + [last];
        assert Ext(lower) == if ToLower(e) == "" then "" else ToLower(e) + [LowerChar(last)];
        ToLowerAppend(e, last);
      }
    }
  }

  /** The extension of `dir + "/" + name` is that of `name`: the directory plays no part. */
  lemma {:induction false} ExtOfChild(dir: string, name: string)
    requires '/' !in name
    ensures Ext(dir + "/" + name) == Ext(name)
    decreases |name|
  {
    var p := dir + "/" + name;
    if |name| == 0 {
      assert p[|p| - 1] == '/';
    } else {
      var init := name[..|name| - 1];
      assert p[|p| - 1] == name[|name| - 1];
      assert p[..|p| - 1] == dir + "/" + init;
      assert '/' !in init by {
        forall c | c in init ensures c in name { }
      }
      ExtOfChild(dir, init);
    }
  }

  /** The extension of `base + "." + word` is "." + word when `word` has neither '.' nor '/'. */
  lemma {:induction false} ExtOfDotted(base: string, word: string)
    requires '.' !in word && '/' !in word
    ensures Ext(base + "." + word) == "." + word
    decreases |word|
  {
    var p := base + "." + word;
    if |word| == 0 {
      assert p[|p| - 1] == '.';
    } else {
      var init, last := word[..|word| - 1], word[|word| - 1];
      assert p[|p| - 1] == last && last != '.' && last != '/';
      assert p[..|p| - 1] == base + "." + init;
      assert '.' !in init && '/' !in init by {
        forall c | c in init ensures c in word { }
      }
      ExtOfDotted(base, init);
      assert "." + init + [last] == "." + word;
    }
  }

  /** The shape of a non-empty extension: a '.' followed by neither '.' nor '/'. */
  predicate IsExtension(ext: string)
  {
    |ext| >= 1 && ext[0] == '.' && '.' !in ext[1..] && '/' !in ext[1..]
  }

  /**
   * A name ending in an extension-shaped suffix (a '.' followed by neither
   * '.' nor '/') has that suffix as its extension, whatever comes before it.
   */
  lemma ExtOfSuffix(s: string, ext: string)
    requires HasSuffix(s, ext) && IsExtension(ext)
    ensures Ext(s) == ext
  {
    var base := s[..|s| - |ext|];
    assert s == base + "." + ext[1..];
    ExtOfDotted(base, ext[1..]);
  }

  datatype ExtDecision = Blocked | NotAllowed | Servable

  /** The two lookups in order: the blocklist first, then the allowlist. */
  function Lookup(ext: string, allowed: set<string>, blocked: set<string>): (d: ExtDecision)
    ensures d == Servable <==> ext in allowed && ext !in blocked
    ensures d == Blocked <==> ext in blocked
  {
    if ext in blocked then Blocked
    else if ext !in allowed then NotAllowed
    else Servable
  }

  /**
   * The extension check of the handler on a resolved path: served exactly
   * when the lowercased extension is allowlisted (".log" is not), blocked
   * exactly when it is blocklisted.
   */
  function CheckExtension(path: string): (d: ExtDecision)
    ensures d == Servable <==> ToLower(Ext(path)) in AllowedExts
    ensures d == Blocked <==> ToLower(Ext(path)) in BlockedExts
  {
    Lookup(ToLower(Ext(path)), AllowedExts, BlockedExts)
  }

  /** The check ignores case: a path and its lowercase form get the same answer. */
  lemma CheckIgnoresCase(path: string)
    ensures CheckExtension(ToLower(path)) == CheckExtension(path)
  {
    ExtOfLower(path);
    ToLowerIdempotent(Ext(path));
  }

  /** ".log" in any case is refused whatever the allowlist holds, because the blocklist comes first. */
  lemma LogAlwaysBlocked(path: string, allowed: set<string>)
    requires ToLower(Ext(path)) == ".log" || Ext(path) == ".log"
    ensures Lookup(ToLower(Ext(path)), allowed, BlockedExts) == Blocked
    ensures CheckExtension(path) == Blocked
  {
    assert ToLower(Ext(path)) == ".log";
  }

  /** Default deny: a last element without a '.' has the empty extension, which is not allowlisted. */
  lemma NoDotRefused(path: string)
    requires forall i :: InLastElement(path, i) ==> path[i] != '.'
    ensures Ext(path) == ""
    ensures CheckExtension(path) == NotAllowed
  {
    assert ToLower(Ext(path)) == "";
  }

  /** ".log" is the blocked extension. */
  lemma LogExtension()
    ensures IsExtension(".log") && ".log" in BlockedExts
  {
    assert ".log"[1..] == "log";
  }

  /** ".exe" is its own lowercase form and is in neither list. */
  lemma ExeExtension()
    ensures IsExtension(".exe") && ToLower(".exe") !in AllowedExts && ToLower(".exe") !in BlockedExts
  {
    assert ".exe"[1..] == "exe";
    var l := ToLower(".exe");
    assert l[0] == '.' && l[1] == 'e' && l[2] == 'x' && l[3] == 'e';
    assert l == ".exe";
  }

  /** ".html" is its own lowercase form and is allowlisted. */
  lemma HtmlExtension()
    ensures IsExtension(".html") && ToLower(".html") in AllowedExts
  {
    assert ".html"[1..] == "html";
    var l := ToLower(".html");
    assert l[0] == '.' && l[1] == 'h' && l[2] == 't' && l[3] == 'm' && l[4] == 'l';
    assert l == ".html";
  }

  /** ".\U{0130}co" lowercases to the allowlisted ".ico", as Go's unicode.ToLower maps U+0130 to 'i'. */
  lemma CapitalDottedIExtension()
    ensures IsExtension(".\U{0130}co") && ToLower(".\U{0130}co") in AllowedExts
  {
    assert ".\U{0130}co"[1..] == "\U{0130}co";
    var l := ToLower(".\U{0130}co");
    assert l[0] == '.' && l[1] == 'i' && l[2] == 'c' && l[3] == 'o';
    assert l == ".ico";
  }

  /** ".LOG" lowercases to the blocked ".log". */
  lemma UpperLogExtension()
    ensures IsExtension(".LOG") && ToLower(".LOG") in BlockedExts
  {
    assert ".LOG"[1..] == "LOG";
    var l := ToLower(".LOG");
    assert l[0] == '.' && l[1] == 'l' && l[2] == 'o' && l[3] == 'g';
    assert l == ".log";
  }
}
