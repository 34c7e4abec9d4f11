/** The few PHP string builtins the catalog core relies on, over `string` (= seq<char>):
    `str_replace` with one search string, `explode`/`implode` on a one-character
    delimiter, `dirname`, the file-name part of a pathname, `pathinfo(..., PATHINFO_FILENAME)`
    and the truthiness of an optional string. Paths use the POSIX separator '/'. */
module PhpStrings {

  datatype Option<T> = None | Some(value: T)

  // ---------------------------------------------------------------------------
  // str_replace

  /** `search` occurs in `s` starting at index `i`. */
  predicate OccursAt(s: string, search: string, i: int)
  {
    0 <= i && i + |search| <= |s| && s[i..i + |search|] == search
  }

  predicate Occurs(s: string, search: string)
  {
    exists i | 0 <= i <= |s| :: OccursAt(s, search, i)
  }

  /** PHP's str_replace for a single search string: scan left to right and replace each
      non-overlapping occurrence of `search` by `replace`; an empty `search` leaves the
      subject unchanged. */
  function StrReplace(subject: string, search: string, replace: string): string
    decreases |subject|
  {
    if |search| == 0 || |subject| < |search| then subject
    else if subject[..|search|] == search then replace + StrReplace(subject[|search|..], search, replace)
    else [subject[0]] + StrReplace(subject[1..], search, replace)
  }

  /** Reference definition of replacing one character by another, position by position. */
  function ReplaceChar(s: string, c: char, d: char): string
  {
    seq(|s|, i requires 0 <= i < |s| => if s[i] == c then d else s[i])
  }

  /** With a one-character search and replacement, str_replace is the pointwise substitution. */
  lemma {:induction false} StrReplaceCharIsPointwise(s: string, c: char, d: char)
    ensures StrReplace(s, [c], [d]) == ReplaceChar(s, c, d)
  {
    if |s| > 0 {
      StrReplaceCharIsPointwise(s[1..], c, d);
      var head := if s[0] == c then d else s[0];
      assert s[..1] == [s[0]];
      assert StrReplace(s, [c], [d]) == [head] + StrReplace(s[1..], [c], [d]);
      assert ReplaceChar(s, c, d) == [head] + ReplaceChar(s[1..], c, d);
    }
  }

  /** Replacing every backslash by a slash leaves no backslash behind. */
  lemma NormalisedHasNoBackslash(s: string)
    ensures '\\' !in StrReplace(s, "\\", "/")
  {
    StrReplaceCharIsPointwise(s, '\\', '/');
  }

  /** A subject without any occurrence of `search` comes back unchanged. */
  lemma {:induction false} StrReplaceAbsent(s: string, search: string, replace: string)
    requires !Occurs(s, search)
    ensures StrReplace(s, search, replace) == s
    decreases |s|
  {
    assert |search| > 0 by {
      if |search| == 0 {
        assert OccursAt(s, search, 0);
      }
    }
    if |s| >= |search| {
      assert !OccursAt(s, search, 0);
      assert s[..|search|] != search;
      assert !Occurs(s[1..], search) by {
        if i :| OccursAt(s[1..], search, i) {
          assert s[1..][i..i + |search|] == s[i + 1..i + 1 + |search|];
          assert OccursAt(s, search, i + 1);
        }
      }
      StrReplaceAbsent(s[1..], search, replace);
    }
  }

  /** An occurrence at the front is replaced and the scan resumes after it. */
  lemma StrReplaceLeading(search: string, rest: string, replace: string)
    requires |search| > 0
    ensures StrReplace(search + rest, search, replace) == replace + StrReplace(rest, search, replace)
  {
    assert (search + rest)[..|search|] == search;
    assert (search + rest)[|search|..] == rest;
  }

  /** Removing a base that occurs only at the front of a pathname yields the rest of it. */
  lemma StrReplaceRemovesBase(base: string, rest: string)
    requires |base| > 0 && !Occurs(rest, base)
    ensures StrReplace(base + rest, base, "") == rest
  {
    StrReplaceLeading(base, rest, "");
    StrReplaceAbsent(rest, base, "");
  }

  /** str_replace is not prefix removal: an occurrence of the base inside the path goes too. */
  lemma StrReplaceRemovesInnerBase()
    ensures StrReplace("/b/x/b/y", "/b/", "") == "xy"
  {
    StrReplaceLeading("/b/", "x/b/y", "");
    assert "/b/" + "x/b/y" == "/b/x/b/y";
    assert "x/b/y"[..3][0] == 'x';
    assert StrReplace("x/b/y", "/b/", "") == "x" + StrReplace("/b/y", "/b/", "");
    StrReplaceLeading("/b/", "y", "");
    assert "/b/" + "y" == "/b/y";
  }

  // ---------------------------------------------------------------------------
  // explode / implode

  /** PHP's explode with a one-character delimiter: the maximal delimiter-free pieces,
      empty ones included; the empty string gives one empty piece. */
  function Explode(sep: char, s: string): (parts: seq<string>)
    ensures |parts| >= 1
    ensures forall i :: 0 <= i < |parts| ==> sep !in parts[i]
    decreases |s|
  {
    if |s| == 0 then [""]
    else
      var rest := Explode(sep, s[1..]);
      if s[0] == sep then [""] + rest else [[s[0]] + rest[0]] + rest[1..]
  }

  /** PHP's implode: the pieces joined with the delimiter between neighbours. */
  function Implode(sep: char, parts: seq<string>): string
  {
    if |parts| == 0 then ""
    else if |parts| == 1 then parts[0]
    else parts[0] + [sep] + Implode(sep, parts[1..])
  }

  lemma {:induction false} ImplodeExplode(sep: char, s: string)
    ensures Implode(sep, Explode(sep, s)) == s
    decreases |s|
  {
    if |s| > 0 {
      var rest := Explode(sep, s[1..]);
      ImplodeExplode(sep, s[1..]);
      if s[0] == sep {
        assert ([""] + rest)[1..] == rest;
        assert s == [sep] + s[1..];
      } else {
        var parts := [[s[0]] + rest[0]] + rest[1..];
        if |rest| == 1 {
          assert parts == [[s[0]] + rest[0]];
          assert s == [s[0]] + s[1..];
        } else {
          assert parts[1..] == rest[1..];
          assert Implode(sep, rest) == rest[0] + [sep] + Implode(sep, rest[1..]);
          assert s == [s[0]] + s[1..];
        }
      }
    }
  }

  /** Splitting a delimiter-free prefix off the front of a string. */
  lemma {:induction false} ExplodeDelimiterFreePrefix(sep: char, a: string, tail: string)
    requires sep !in a
    ensures Explode(sep, a + tail) == [a + Explode(sep, tail)[0]] + Explode(sep, tail)[1..]
    decreases |a|
  {
    if |a| > 0 {
      var s := a + tail;
      var parts := Explode(sep, tail);
      ExplodeDelimiterFreePrefix(sep, a[1..], tail);
      assert s[0] == a[0] && s[0] != sep;
      assert s[1..] == a[1..] + tail;
      var rest := Explode(sep, s[1..]);
      assert rest == [a[1..] + parts[0]] + parts[1..];
      assert Explode(sep, s) == [[s[0]] + rest[0]] + rest[1..];
      assert rest[1..] == parts[1..];
      assert [a[0]] + (a[1..] + parts[0]) == a + parts[0];
    } else {
      var parts := Explode(sep, tail);
      assert a + tail == tail;
      assert a + parts[0] == parts[0];
      assert parts == [parts[0]] + parts[1..];
    }
  }

  lemma {:induction false} ExplodeImplode(sep: char, parts: seq<string>)
    requires |parts| >= 1
    requires forall i :: 0 <= i < |parts| ==> sep !in parts[i]
    ensures Explode(sep, Implode(sep, parts)) == parts
  {
    if |parts| == 1 {
      ExplodeDelimiterFreePrefix(sep, parts[0], "");
      assert Explode(sep, "") == [""];
      assert parts[0] + "" == parts[0];
      assert parts == [parts[0]];
    } else {
      var tail := [sep] + Implode(sep, parts[1..]);
      ExplodeImplode(sep, parts[1..]);
      assert tail[1..] == Implode(sep, parts[1..]);
      assert Explode(sep, tail) == [""] + parts[1..];
      ExplodeDelimiterFreePrefix(sep, parts[0], tail);
      assert ([""] + parts[1..])[1..] == parts[1..];
      assert parts[0] + "" == parts[0];
      assert parts[0] + [sep] + Implode(sep, parts[1..]) == parts[0] + tail;
      assert parts == [parts[0]] + parts[1..];
    }
  }

  /** The joined pieces end with the last piece. */
  lemma {:induction false} ImplodeEndsWithLast(sep: char, parts: seq<string>)
    requires |parts| >= 1
    ensures |Implode(sep, parts)| >= |parts[|parts| - 1]|
    ensures Implode(sep, parts)[|Implode(sep, parts)| - |parts[|parts| - 1]|..] == parts[|parts| - 1]
  {
    if |parts| > 1 {
      ImplodeEndsWithLast(sep, parts[1..]);
      var j := Implode(sep, parts[1..]);
      var w := parts[0] + [sep];
      assert Implode(sep, parts) == w + j;
      assert (w + j)[|w + j| - |parts[|parts| - 1]|..] == j[|j| - |parts[|parts| - 1]|..];
    }
  }

  // ---------------------------------------------------------------------------
  // dirname, file name, extension

  /** Index of the last `c` in `s`, or -1 when there is none. */
  function LastIndexOf(s: string, c: char): (k: int)
    ensures -1 <= k < |s|
    ensures k >= 0 ==> s[k] == c
    ensures forall i :: k < i < |s| ==> s[i] != c
  {
    if |s| == 0 then -1
    else if s[|s| - 1] == c then |s| - 1
    else LastIndexOf(s[..|s| - 1], c)
  }

  /** The longest prefix of `s` not ending in '/'. */
  function DropTrailingSlashes(s: string): (r: string)
    ensures r <= s
    ensures r == [] || r[|r| - 1] != '/'
    ensures forall i :: |r| <= i < |s| ==> s[i] == '/'
  {
    if |s| > 0 && s[|s| - 1] == '/' then DropTrailingSlashes(s[..|s| - 1]) else s
  }

  /** The longest prefix of `s` that is empty or ends in '/'. */
  function DropTrailingName(s: string): (r: string)
    ensures r <= s
    ensures r == [] || r[|r| - 1] == '/'
    ensures forall i :: |r| <= i < |s| ==> s[i] != '/'
  {
    s[..LastIndexOf(s, '/') + 1]
  }

  /** PHP's dirname with one level: strip trailing slashes, then the last name, then the
      slashes before it. The empty path stays empty, a path of slashes only gives "/",
      a path without a slash gives ".". */
  function Dirname(path: string): string
  {
    if |path| == 0 then ""
    else
      var noSlashes := DropTrailingSlashes(path);
      if |noSlashes| == 0 then "/"
      else
        var noName := DropTrailingName(noSlashes);
        if |noName| == 0 then "."
        else
          var parent := DropTrailingSlashes(noName);
          if |parent| == 0 then "/" else parent
  }

  /** The characterisation of LastIndexOf determines it. */
  lemma LastIndexOfIs(s: string, c: char, k: int)
    requires -1 <= k < |s|
    requires k >= 0 ==> s[k] == c
    requires forall i :: k < i < |s| ==> s[i] != c
    ensures LastIndexOf(s, c) == k
  {
  }

  /** The characterisation of DropTrailingSlashes determines it. */
  lemma DropTrailingSlashesIs(s: string, k: nat)
    requires k <= |s|
    requires k == 0 || s[k - 1] != '/'
    requires forall i :: k <= i < |s| ==> s[i] == '/'
    ensures DropTrailingSlashes(s) == s[..k]
  {
  }

  /** A non-empty, slash-free name directly under a directory not ending in '/'
      has that directory as its dirname. */
  lemma DirnameOfChild(dir: string, name: string)
    requires |dir| > 0 && dir[|dir| - 1] != '/'
    requires |name| > 0 && '/' !in name
    ensures Dirname(dir + "/" + name) == dir
  {
    var path := dir + "/" + name;
    assert forall i :: |dir| < i < |path| ==> path[i] == name[i - |dir| - 1];
    DropTrailingSlashesIs(path, |path|);
    assert path[..|path|] == path;
    LastIndexOfIs(path, '/', |dir|);
    assert DropTrailingName(path) == dir + "/";
    DropTrailingSlashesIs(dir + "/", |dir|);
    assert (dir + "/")[..|dir|] == dir;
  }

  /** A non-empty, slash-free path has "." as its dirname. */
  lemma DirnameOfBareName(name: string)
    requires |name| > 0 && '/' !in name
    ensures Dirname(name) == "."
  {
    DropTrailingSlashesIs(name, |name|);
    assert name[..|name|] == name;
    LastIndexOfIs(name, '/', -1);
  }

  /** The last component of a pathname (SplFileInfo::getFilename). */
  function Basename(path: string): (r: string)
    ensures '/' !in r
    ensures |r| <= |path| && path[|path| - |r|..] == r
    ensures |r| < |path| ==> path[|path| - |r| - 1] == '/'
  {
    path[LastIndexOf(path, '/') + 1..]
  }

  /** pathinfo(name, PATHINFO_FILENAME): everything before the last '.', or the whole
      name when it has no '.'. */
  function Stem(name: string): (r: string)
    ensures r <= name
    ensures '.' !in name ==> r == name
    ensures '.' in name ==> |r| < |name| && name[|r|] == '.' && '.' !in name[|r| + 1..]
  {
    var k := LastIndexOf(name, '.');
    if k < 0 then name else name[..k]
  }

  /** SplFileInfo::getFilenameWithoutExtension. */
  function FilenameWithoutExtension(path: string): string
  {
    Stem(Basename(path))
  }

  /** The file name of `dir/name` is `name` when `name` has no slash. */
  lemma BasenameOfChild(dir: string, name: string)
    requires '/' !in name
    ensures Basename(dir + "/" + name) == name
  {
    var path := dir + "/" + name;
    assert forall i :: |dir| < i < |path| ==> path[i] == name[i - |dir| - 1];
    LastIndexOfIs(path, '/', |dir|);
    assert path[|dir| + 1..] == name;
  }

  /** For `dir/stem.ext` with a dot-free extension the title is `stem`, dots in it included. */
  lemma FilenameWithoutExtensionOf(dir: string, stem: string, ext: string)
    requires '/' !in stem && '/' !in ext && '.' !in ext
    ensures FilenameWithoutExtension(dir + "/" + stem + "." + ext) == stem
  {
    var name := stem + "." + ext;
    assert dir + "/" + stem + "." + ext == dir + "/" + name;
    BasenameOfChild(dir, name);
    assert forall i :: |stem| < i < |name| ==> name[i] == ext[i - |stem| - 1];
    LastIndexOfIs(name, '.', |stem|);
    assert name[..|stem|] == stem;
  }

  /** A file name without any '.' is its own title. */
  lemma FilenameWithoutExtensionOfPlainName(dir: string, name: string)
    requires '/' !in name && '.' !in name
    ensures FilenameWithoutExtension(dir + "/" + name) == name
  {
    BasenameOfChild(dir, name);
  }

  // ---------------------------------------------------------------------------
  // truthiness

  /** A PHP value `if ($s)` accepts: not null, not "" and not "0". */
  predicate Truthy(s: Option<string>)
  {
    s.Some? && s.value != "" && s.value != "0"
  }
}
