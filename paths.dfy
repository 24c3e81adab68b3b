/**
 * The path sanitiser of the server (Server.sanitizePath) and the parts of
 * Go's path/filepath package it uses (Clean, Join, Abs), on a Unix host
 * where the only separator is '/'.
 *
 * The served root is taken to be absolute and already clean, which is what
 * `IsCleanAbs` states; on such paths filepath.Abs returns its argument.
 */
module Paths {
  import opened Strings

  /** One element of a clean path: not empty, no separator, neither "." nor "..". */
  predicate IsElement(name: string)
  {
    name != "" && name != "." && name != ".." && '/' !in name
  }

  /** Index of the last '/' in `p`, or -1 when there is none. */
  function LastSlash(p: string): (k: int)
    ensures -1 <= k < |p|
    ensures k >= 0 ==> p[k] == '/'
    ensures forall j :: k < j < |p| ==> p[j] != '/'
    decreases |p|
  {
    if |p| == 0 then -1
    else if p[|p| - 1] == '/' then |p| - 1
    else LastSlash(p[..|p| - 1])
  }

  /**
   * `p` is absolute and a fixed point of filepath.Clean: either "/" or
   * "/e1/.../en" with every ei an element.
   */
  predicate IsCleanAbs(p: string)
    decreases |p|
  {
    if p == "/" then true
    else if |p| < 2 || p[0] != '/' then false
    else
      var k := LastSlash(p);
      IsElement(p[k + 1..]) && (k == 0 || (k > 1 && IsCleanAbs(p[..k])))
  }

  /** filepath.Dir of a clean absolute path other than "/". */
  function Dir(p: string): string
    requires IsCleanAbs(p) && p != "/"
  {
    var k := LastSlash(p);
    if k == 0 then "/" else p[..k]
  }

  /** filepath.Base of a clean absolute path other than "/". */
  function Base(p: string): string
    requires IsCleanAbs(p) && p != "/"
  {
    p[LastSlash(p) + 1..]
  }

  /** The last separator of `a + "/" + name` is the one just appended. */
  lemma {:induction false} LastSlashOfChild(a: string, name: string)
    requires '/' !in name
    ensures LastSlash(a + "/" + name) == |a|
    decreases |name|
  {
    var p := a + "/" + name;
    if |name| == 0 {
      assert p == a + "/";
    } else {
      var init := name[..|name| - 1];
      assert p[|p| - 1] == name[|name| - 1];
      assert p[..|p| - 1] == a + "/" + init;
      assert '/' !in init by {
        forall c | c in init ensures c in name { }
      }
      LastSlashOfChild(a, init);
    }
  }

  /**
   * filepath.Clean of a string without a separator: the empty string and
   * "." become "."; anything else, ".." included, is already clean.
   */
  function CleanName(p: string): (r: string)
    requires !Contains(p, "/")
    ensures r != ""
    ensures p == "" || p == "." ==> r == "."
    ensures p != "" && p != "." ==> r == p
  {
    if p == "" || p == "." then "." else p
  }

  /** filepath.Join of a clean absolute directory and one element. */
  function Join(root: string, name: string): (r: string)
    ensures HasPrefix(r, root) && HasSuffix(r, "/" + name)
    ensures |r| == (if root == "/" then 0 else |root|) + 1 + |name|
  {
    if root == "/" then "/" + name else root + "/" + name
  }

  /**
   * Joining a clean absolute directory and one element gives a clean
   * absolute path whose directory is `root` and whose last element is `name`.
   */
  lemma JoinClean(root: string, name: string)
    requires IsCleanAbs(root) && IsElement(name)
    ensures var r := Join(root, name);
      IsCleanAbs(r) && r != "/" && Dir(r) == root && Base(r) == name
  {
    LastSlashOfChild(if root == "/" then "" else root, name);
    if root == "/" {
      assert "/" + name == "" + "/" + name;
    } else {
      assert (root + "/" + name)[..|root|] == root;
    }
  }

  /** Why a request path was refused; the handler answers all of them alike. */
  datatype SanitizeError =
    | DirectoryAccess      // empty or "." after the leading slash
    | Subdirectory         // a '/' or '\' remains
    | Traversal            // ".." somewhere
    | TraversalAfterClean  // ".." after filepath.Clean
    | EscapesRoot          // the final prefix check failed

  datatype SanitizeResult = Safe(path: string) | Rejected(reason: SanitizeError)

  /** Server.sanitizePath: an untrusted URL path to a file path under `root`, or a refusal. */
  function Sanitize(p: string, root: string): (r: SanitizeResult)
    requires IsCleanAbs(root)
    ensures r.Safe? ==> root != "/" && r.path == root + "/" + TrimPrefix(p, "/")
  {
    var rem := TrimPrefix(p, "/");
    if rem == "" || rem == "." then Rejected(DirectoryAccess)
    else if Contains(rem, "/") || Contains(rem, "\\") then Rejected(Subdirectory)
    else if Contains(rem, "..") then Rejected(Traversal)
    else
      var clean := CleanName(rem);
      if Contains(clean, "..") then Rejected(TraversalAfterClean)
      else
        var full := Join(root, clean);
        // filepath.Abs returns a clean absolute path unchanged, and both are clean absolute
        var absRoot, absPath := root, full;
        if !HasPrefix(absPath, absRoot + "/") && absPath != absRoot then Rejected(EscapesRoot)
        else Safe(full)
  }

  /** A request name the sanitiser lets through, stated without the Go helpers. */
  predicate AcceptableName(n: string)
  {
    && n != "" && n != "."
    && '/' !in n && '\\' !in n
    && forall i :: 0 <= i < |n| - 1 ==> !(n[i] == '.' && n[i + 1] == '.')
  }

  /**
   * The sanitiser accepts exactly the paths whose remainder after one
   * leading '/' is a single name without separators or "..", and only when
   * the root is not "/".
   */
  lemma SanitizeAccepts(p: string, root: string)
    requires IsCleanAbs(root)
    ensures Sanitize(p, root).Safe? <==> root != "/" && AcceptableName(TrimPrefix(p, "/"))
  {
    var rem := TrimPrefix(p, "/");
    ContainsChar(rem, '/');
    ContainsChar(rem, '\\');
    DotDot(rem);
    if root == "/" && AcceptableName(rem) {
      var full := Join(root, rem);
      assert full == "/" + rem;
      assert !HasPrefix(full, "//") by {
        assert rem[0] != '/';
        assert full[1] == rem[0];
      }
    }
  }

  /**
   * What an accepted path is: the root, a separator and the unchanged
   * remainder, a clean absolute path whose directory is the root. No
   * accepted input names anything outside the root or the root itself.
   */
  lemma SanitizeContained(p: string, root: string)
    requires IsCleanAbs(root)
    requires Sanitize(p, root).Safe?
    ensures var f := Sanitize(p, root).path;
      && f == root + "/" + TrimPrefix(p, "/")
      && HasPrefix(f, root + "/") && f != root
      && IsCleanAbs(f) && f != "/" && Dir(f) == root && Base(f) == TrimPrefix(p, "/")
  {
    SanitizeAccepts(p, root);
    var rem := TrimPrefix(p, "/");
    assert rem != ".." by {
      assert !(rem[0] == '.' && rem[1] == '.');
    }
    JoinClean(root, rem);
    assert (root + "/" + rem)[..|root + "/"|] == root + "/";
  }

  /** After one leading '/' is removed, an empty or "." remainder is a directory request. */
  lemma EmptyOrDotRejected(p: string, root: string)
    requires IsCleanAbs(root)
    requires p in {"", "/", ".", "/."}
    ensures Sanitize(p, root) == Rejected(DirectoryAccess)
  {
  }

  /** Any separator, '/' or '\', in the remainder is refused as a subdirectory. */
  lemma SeparatorRejected(p: string, root: string)
    requires IsCleanAbs(root)
    requires '/' in TrimPrefix(p, "/") || '\\' in TrimPrefix(p, "/")
    ensures Sanitize(p, root) == Rejected(Subdirectory)
  {
    var rem := TrimPrefix(p, "/");
    ContainsChar(rem, '/');
    ContainsChar(rem, '\\');
    assert rem != "" && rem != ".";
  }

  /** Only one leading slash is stripped: "//x" keeps a separator and is refused. */
  lemma DoubleSlashRejected(x: string, root: string)
    requires IsCleanAbs(root)
    ensures Sanitize("//" + x, root) == Rejected(Subdirectory)
  {
    assert HasPrefix("//" + x, "/");
    assert TrimPrefix("//" + x, "/") == "/" + x;
    SeparatorRejected("//" + x, root);
  }

  /** Two adjacent dots anywhere in the remainder are refused. */
  lemma TraversalRejected(p: string, root: string, i: int)
    requires IsCleanAbs(root)
    requires 0 <= i < |TrimPrefix(p, "/")| - 1
    requires TrimPrefix(p, "/")[i] == '.' && TrimPrefix(p, "/")[i + 1] == '.'
    ensures Sanitize(p, root).Rejected?
    ensures Sanitize(p, root).reason in {Subdirectory, Traversal}
  {
    var rem := TrimPrefix(p, "/");
    DotDot(rem);
    assert rem != "" && rem != "." by {
      assert |rem| >= 2;
    }
  }

  /** The check repeated after filepath.Clean never fires: Clean changes nothing that gets there. */
  lemma CleanCheckRedundant(p: string, root: string)
    requires IsCleanAbs(root)
    ensures Sanitize(p, root) != Rejected(TraversalAfterClean)
  {
  }

  /**
   * With "/" as the root, the final check looks for the prefix "//", which
   * no joined path has, so every request is refused.
   */
  lemma SlashRootRejectsEverything(p: string)
    ensures Sanitize(p, "/").Rejected?
  {
    SanitizeAccepts(p, "/");
  }
}
