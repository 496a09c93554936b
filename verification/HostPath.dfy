/** Session-host paths (src/profiles.rs): a lexical parser for Unix, drive and UNC roots, the
    containment order it supports, and the printer that moves a directory into another checkout. */
module HostPaths {
  import opened Wrappers

  /** A parsed path: its root, the components below it, and whether Windows rules apply. */
  datatype HostPath = HostPath(root: string, parts: seq<string>, windows: bool)

  // ---------------------------------------------------------------- splitting

  predicate IsSeparator(windows: bool, c: char) {
    c == '/' || (windows && c == '\\')
  }

  /** One more character in front: it separates, or it lengthens the first piece. */
  function Front(c: char, pieces: seq<string>, windows: bool): seq<string>
    requires pieces != []
  {
    if IsSeparator(windows, c) then [""] + pieces else [[c] + pieces[0]] + pieces[1..]
  }

  /** The pieces between separators: one more than there are separators. */
  function Split(s: string, windows: bool): (pieces: seq<string>)
    ensures pieces != []
  {
    if s == "" then [""]
    else
      Front(s[0], Split(s[1..], windows), windows)
  }

  /** `.` and empty pieces vanish, `..` pops, and popping an empty stack fails. */
  function Resolve(stack: seq<string>, pieces: seq<string>): Option<seq<string>>
    decreases |pieces|
  {
    if pieces == [] then Some(stack)
    else if pieces[0] == "" || pieces[0] == "." then Resolve(stack, pieces[1..])
    else if pieces[0] == ".." then
      if stack == [] then None else Resolve(stack[..|stack| - 1], pieces[1..])
    else Resolve(stack + [pieces[0]], pieces[1..])
  }

  /** The longest prefix without a Windows separator. */
  function Name(s: string): (name: string)
    ensures name <= s
    ensures forall c | c in name :: !IsSeparator(true, c)
    ensures |name| < |s| ==> IsSeparator(true, s[|name|])
  {
    if s == "" || IsSeparator(true, s[0]) then "" else [s[0]] + Name(s[1..])
  }

  predicate IsAsciiAlphabetic(c: char) {
    'a' <= c <= 'z' || 'A' <= c <= 'Z'
  }

  predicate IsUnc(path: string) {
    |path| >= 2 && IsSeparator(true, path[0]) && IsSeparator(true, path[1])
  }

  predicate IsDrive(path: string) {
    |path| >= 2 && IsAsciiAlphabetic(path[0]) && path[1] == ':'
  }

  /** The server and share of a UNC path, which are part of its root. */
  function UncNames(path: string): Option<(string, string)>
    requires IsUnc(path)
  {
    var server := Name(path[2..]);
    if server == "" || |server| == |path| - 2 then None
    else
      var share := Name(path[2 + |server| + 1..]);
      if share == "" then None else Some((server, share))
  }

  /** The root, where the text below it starts, and the family the root decides. */
  function SplitRoot(path: string): Option<(string, string, bool)> {
    if IsUnc(path) then
      match UncNames(path)
      case None => None
      case Some((server, share)) =>
        var end := 2 + |server| + 1 + |share|;
        Some(("\\\\" + server + "\\" + share, if end == |path| then "" else path[end + 1..], true))
    else if IsDrive(path) then
      if |path| > 2 && !IsSeparator(true, path[2]) then None else Some((path[..2], path[2..], true))
    else if path != "" && path[0] == '/' then Some(("/", path, false))
    else None
  }

  function Parse(path: string): Option<HostPath> {
    match SplitRoot(path)
    case None => None
    case Some((root, rest, windows)) =>
      match Resolve([], Split(rest, windows))
      case None => None
      case Some(parts) => Some(HostPath(root, parts, windows))
  }

  /** The parser as written: a stack of components pushed and popped in one pass. */
  method ParsePath(path: string) returns (parsed: Option<HostPath>)
    ensures parsed == Parse(path)
  {
    var split := SplitRoot(path);
    if split.None? {
      return None;
    }
    var (root, rest, windows) := split.value;
    var pieces := Split(rest, windows);
    var parts: seq<string> := [];
    for i := 0 to |pieces|
      invariant Resolve([], pieces) == Resolve(parts, pieces[i..])
    {
      assert pieces[i..][1..] == pieces[i + 1..];
      if pieces[i] == "" || pieces[i] == "." {
      } else if pieces[i] == ".." {
        if parts == [] {
          return None;
        }
        parts := parts[..|parts| - 1];
      } else {
        parts := parts + [pieces[i]];
      }
    }
    return Some(HostPath(root, parts, windows));
  }

  // ---------------------------------------------------------------- containment

  function LowerAscii(c: char): char {
    if 'A' <= c <= 'Z' then c - 'A' + 'a' else c
  }

  predicate Same(ignoreCase: bool, a: string, b: string) {
    && |a| == |b|
    && forall i | 0 <= i < |a| :: if ignoreCase then LowerAscii(a[i]) == LowerAscii(b[i]) else a[i] == b[i]
  }

  predicate Contains(ancestor: HostPath, path: HostPath) {
    var ignoreCase := path.windows || ancestor.windows;
    && Same(ignoreCase, path.root, ancestor.root)
    && |ancestor.parts| <= |path.parts|
    && forall i | 0 <= i < |ancestor.parts| :: Same(ignoreCase, ancestor.parts[i], path.parts[i])
  }

  /** The components of `path` below `ancestor`. */
  function Below(path: HostPath, ancestor: HostPath): Option<seq<string>> {
    if Contains(ancestor, path) then Some(path.parts[|ancestor.parts|..]) else None
  }

  /** How deep a listed checkout lies, when it contains `path`. A bare root contains nothing. */
  function Depth(path: HostPath, checkout: string): Option<nat> {
    match Parse(checkout)
    case None => None
    case Some(c) => if c.parts != [] && Contains(c, path) then Some(|c.parts|) else None
  }

  /** `max_by_key` over the containing checkouts. */
  function Deepest(path: HostPath, checkouts: seq<string>): Option<nat> {
    if checkouts == [] then None
    else
      var best := Deepest(path, checkouts[..|checkouts| - 1]);
      var last := Depth(path, checkouts[|checkouts| - 1]);
      if last.None? then best
      else if best.None? || best.value <= last.value then last
      else best
  }

  function InnermostRest(cwd: string, checkouts: seq<string>): Option<seq<string>> {
    match Parse(cwd)
    case None => None
    case Some(path) =>
      match Deepest(path, checkouts)
      case None => None
      case Some(depth) => if depth <= |path.parts| then Some(path.parts[depth..]) else None
  }

  // ---------------------------------------------------------------- rebasing

  function TrimEnd(s: string): (r: string)
    ensures r <= s
    ensures r != "" ==> !IsSeparator(true, r[|r| - 1])
    ensures forall c | c in s[|r|..] :: IsSeparator(true, c)
  {
    if s != "" && IsSeparator(true, s[|s| - 1]) then
      assert s == s[..|s| - 1] + [s[|s| - 1]];
      TrimEnd(s[..|s| - 1])
    else s
  }

  function SeparatorFor(target: string): char {
    if '\\' in target && '/' !in target then '\\' else '/'
  }

  function Extend(base: string, separator: char, rest: seq<string>): string
    decreases |rest|
  {
    if rest == [] then base
    else
      var joint := if base != "" && base[|base| - 1] == separator then base else base + [separator];
      Extend(joint + rest[0], separator, rest[1..])
  }

  function Base(target: string): string {
    if TrimEnd(target) == "" then [SeparatorFor(target)] else TrimEnd(target)
  }

  /** `rest` printed below `target`. */
  function Print(target: string, rest: seq<string>): string {
    Extend(Base(target), SeparatorFor(target), rest)
  }

  function Rebase(cwd: string, checkouts: seq<string>, target: string): Option<string> {
    match InnermostRest(cwd, checkouts)
    case None => None
    case Some(rest) => Some(Print(target, rest))
  }

  /** The rebasing as written, growing one string. */
  method RebaseHostPath(cwd: string, checkouts: seq<string>, target: string) returns (rebased: Option<string>)
    ensures rebased == Rebase(cwd, checkouts, target)
  {
    var innermost := InnermostRest(cwd, checkouts);
    if innermost.None? {
      return None;
    }
    var rest := innermost.value;
    var separator := SeparatorFor(target);
    var text := TrimEnd(target);
    if text == "" {
      text := [separator];
    }
    for i := 0 to |rest|
      invariant Print(target, rest) == Extend(text, separator, rest[i..])
    {
      assert rest[i..][1..] == rest[i + 1..];
      if !(text != "" && text[|text| - 1] == separator) {
        text := text + [separator];
      }
      text := text + rest[i];
    }
    return Some(text);
  }

  // ---------------------------------------------------------------- splitting and resolving lemmas

  lemma FrontJoined(c: char, a: seq<string>, b: seq<string>, windows: bool)
    requires a != []
    ensures Front(c, a + b, windows) == Front(c, a, windows) + b
  {
    assert (a + b)[1..] == a[1..] + b;
  }

  lemma {:induction false} SplitJoined(a: string, c: char, b: string, windows: bool)
    requires IsSeparator(windows, c)
    ensures Split(a + [c] + b, windows) == Split(a, windows) + Split(b, windows)
  {
    var whole := a + [c] + b;
    if a == "" {
      assert whole[1..] == b;
    } else {
      assert whole[0] == a[0] && whole[1..] == a[1..] + [c] + b;
      SplitJoined(a[1..], c, b, windows);
      FrontJoined(a[0], Split(a[1..], windows), Split(b, windows), windows);
    }
  }

  predicate Free(s: string, windows: bool) {
    forall c | c in s :: !IsSeparator(windows, c)
  }

  lemma {:induction false} SplitFree(s: string, windows: bool)
    requires Free(s, windows)
    ensures Split(s, windows) == [s]
  {
    if s != "" {
      assert s[0] in s && forall c | c in s[1..] :: c in s;
      SplitFree(s[1..], windows);
      assert s == [s[0]] + s[1..];
    }
  }

  /** The pieces with one more character at the very end. */
  function Grow(pieces: seq<string>, c: char): seq<string>
    requires pieces != []
  {
    pieces[..|pieces| - 1] + [pieces[|pieces| - 1] + [c]]
  }

  lemma FrontGrow(a: char, pieces: seq<string>, c: char, windows: bool)
    requires pieces != []
    ensures Front(a, Grow(pieces, c), windows) == Grow(Front(a, pieces, windows), c)
  {
    if |pieces| == 1 {
      assert [a] + (pieces[0] + [c]) == [a] + pieces[0] + [c];
    }
  }

  /** A character that does not separate only lengthens the last piece. */
  lemma {:induction false} SplitPush(s: string, c: char, windows: bool)
    requires !IsSeparator(windows, c)
    ensures Split(s + [c], windows) == Grow(Split(s, windows), c)
  {
    if s == "" {
      SplitFree([c], windows);
      assert s + [c] == [c];
    } else {
      SplitPush(s[1..], c, windows);
      assert (s + [c])[0] == s[0] && (s + [c])[1..] == s[1..] + [c];
      FrontGrow(s[0], Split(s[1..], windows), c, windows);
    }
  }

  lemma {:induction false} SplitPiecesFree(s: string, windows: bool)
    ensures forall piece | piece in Split(s, windows) :: Free(piece, windows)
  {
    if s != "" {
      SplitPiecesFree(s[1..], windows);
      assert Split(s[1..], windows)[0] in Split(s[1..], windows);
    }
  }

  lemma {:induction false} ResolveJoined(stack: seq<string>, a: seq<string>, b: seq<string>)
    ensures Resolve(stack, a + b) ==
            match Resolve(stack, a)
            case None => None
            case Some(next) => Resolve(next, b)
    decreases |a|
  {
    if a == [] {
      assert a + b == b;
    } else {
      assert (a + b)[1..] == a[1..] + b;
      if a[0] == "" || a[0] == "." {
        ResolveJoined(stack, a[1..], b);
      } else if a[0] == ".." {
        if stack != [] {
          ResolveJoined(stack[..|stack| - 1], a[1..], b);
        }
      } else {
        ResolveJoined(stack + [a[0]], a[1..], b);
      }
    }
  }

  /** A component as a parser leaves it. */
  predicate Ordinary(part: string) {
    part != "" && part != "." && part != ".."
  }

  lemma {:induction false} ResolveOrdinary(stack: seq<string>, parts: seq<string>)
    requires forall part | part in parts :: Ordinary(part)
    ensures Resolve(stack, parts) == Some(stack + parts)
    decreases |parts|
  {
    if parts == [] {
      assert stack + parts == stack;
    } else {
      assert parts[0] in parts;
      ResolveOrdinary(stack + [parts[0]], parts[1..]);
      assert stack + [parts[0]] + parts[1..] == stack + parts;
    }
  }

  /** Resolving leaves ordinary components, all taken from the pieces. */
  lemma {:induction false} ResolvedParts(stack: seq<string>, pieces: seq<string>)
    requires Resolve(stack, pieces).Some?
    ensures forall part | part in Resolve(stack, pieces).value ::
              part in stack || (part in pieces && Ordinary(part))
    decreases |pieces|
  {
    if pieces != [] {
      var rest := pieces[1..];
      assert forall piece :: piece in pieces <==> piece == pieces[0] || piece in rest;
      if pieces[0] == "" || pieces[0] == "." {
        ResolvedParts(stack, rest);
      } else if pieces[0] == ".." {
        assert forall part | part in stack[..|stack| - 1] :: part in stack;
        ResolvedParts(stack[..|stack| - 1], rest);
      } else {
        ResolvedParts(stack + [pieces[0]], rest);
      }
    }
  }

  /** Every component of a parsed path is ordinary and holds no separator of its family. */
  lemma ParsedParts(path: string)
    requires Parse(path).Some?
    ensures forall part | part in Parse(path).value.parts :: Ordinary(part) && Free(part, Parse(path).value.windows)
  {
    var (root, rest, windows) := SplitRoot(path).value;
    ResolvedParts([], Split(rest, windows));
    SplitPiecesFree(rest, windows);
  }

  // ---------------------------------------------------------------- roots

  /** The text of the root: everything before the first separator below it. */
  function Head(path: string): (h: string)
    ensures h <= path
  {
    if IsUnc(path) then
      match UncNames(path)
      case None => path
      case Some((server, share)) => path[..2 + |server| + 1 + |share|]
    else if IsDrive(path) then path[..2]
    else ""
  }

  function Tail(path: string): string {
    path[|Head(path)|..]
  }

  predicate StartsBelow(tail: string) {
    tail == "" || IsSeparator(true, tail[0])
  }

  lemma {:induction false} NameStops(a: string, b: string)
    requires forall c | c in a :: !IsSeparator(true, c)
    requires StartsBelow(b)
    ensures Name(a + b) == a
  {
    if a == "" {
      assert a + b == b;
    } else {
      assert a[0] in a && forall c | c in a[1..] :: c in a;
      NameStops(a[1..], b);
      assert (a + b)[1..] == a[1..] + b;
    }
  }

  /** Where the parts of a UNC root lie. */
  lemma UncLayout(path: string)
    requires IsUnc(path) && UncNames(path).Some?
    ensures var (server, share) := UncNames(path).value;
            var end := 2 + |server| + 1 + |share|;
            && end <= |path|
            && path[2..2 + |server|] == server
            && path[2 + |server| + 1..end] == share
            && IsSeparator(true, path[2 + |server|])
            && !IsSeparator(true, path[end - 1])
            && StartsBelow(path[end..])
  {
    var (server, share) := UncNames(path).value;
    assert path[2..][|server|] == path[2 + |server|];
    assert share[|share| - 1] in share;
  }

  /** The components of a Windows path are those of the tail after its root. */
  lemma WindowsRoot(path: string)
    requires SplitRoot(path).Some? && SplitRoot(path).value.2
    ensures StartsBelow(Tail(path)) && Head(path) != "" && !IsSeparator(true, Head(path)[|Head(path)| - 1])
    ensures Resolve([], Split(SplitRoot(path).value.1, true)) == Resolve([], Split(Tail(path), true))
  {
    if IsUnc(path) {
      UncLayout(path);
      if Tail(path) != "" {
        var rest := Tail(path)[1..];
        assert SplitRoot(path).value.1 == rest;
        assert Split(Tail(path), true) == [""] + Split(rest, true);
        assert ([""] + Split(rest, true))[1..] == Split(rest, true);
      }
    }
  }

  lemma UncNamesOf(slashes: string, server: string, c: char, share: string, tail: string)
    requires |slashes| == 2 && IsUnc(slashes) && IsSeparator(true, c) && StartsBelow(tail)
    requires server != "" && Free(server, true) && share != "" && Free(share, true)
    ensures var path := slashes + (server + ([c] + (share + tail)));
            IsUnc(path) && UncNames(path) == Some((server, share))
  {
    var path := slashes + (server + ([c] + (share + tail)));
    assert path[2..] == server + ([c] + (share + tail));
    NameStops(server, [c] + (share + tail));
    assert path[2 + |server| + 1..] == share + tail;
    NameStops(share, tail);
  }

  lemma Regroup(path: string, s: nat, end: nat, tail: string)
    requires 2 <= s < end <= |path|
    ensures path[..end] + tail == path[..2] + (path[2..s] + ([path[s]] + (path[s + 1..end] + tail)))
  {
  }

  /** The text of a UNC root, with what follows it. */
  lemma UncText(path: string, tail: string)
    requires IsUnc(path) && UncNames(path).Some?
    ensures var (server, share) := UncNames(path).value;
            2 + |server| < |path| &&
            Head(path) + tail == path[..2] + (server + ([path[2 + |server|]] + (share + tail)))
  {
    UncLayout(path);
    var (server, share) := UncNames(path).value;
    var end := 2 + |server| + 1 + |share|;
    assert Head(path) == path[..end];
    Regroup(path, 2 + |server|, end, tail);
  }

  lemma UncNamesKept(path: string, tail: string)
    requires IsUnc(path) && UncNames(path).Some? && StartsBelow(tail)
    ensures IsUnc(Head(path) + tail) && UncNames(Head(path) + tail) == UncNames(path)
  {
    UncLayout(path);
    UncText(path, tail);
    var (server, share) := UncNames(path).value;
    UncNamesOf(path[..2], server, path[2 + |server|], share, tail);
  }

  lemma UncRootKept(path: string, tail: string)
    requires IsUnc(path) && SplitRoot(path).Some? && StartsBelow(tail)
    ensures var other := Head(path) + tail;
            && SplitRoot(other).Some? && SplitRoot(other).value.2
            && SplitRoot(other).value.0 == SplitRoot(path).value.0
            && Tail(other) == tail
  {
    var other := Head(path) + tail;
    UncNamesKept(path, tail);
    var (server, share) := UncNames(path).value;
    var end := 2 + |server| + 1 + |share|;
    assert IsUnc(other);
    assert other[end..] == tail;
  }

  lemma WindowsRootKept(path: string, tail: string)
    requires SplitRoot(path).Some? && SplitRoot(path).value.2 && StartsBelow(tail)
    ensures var other := Head(path) + tail;
            && SplitRoot(other).Some? && SplitRoot(other).value.2
            && SplitRoot(other).value.0 == SplitRoot(path).value.0
            && Tail(other) == tail
  {
    WindowsRoot(path);
    if IsUnc(path) {
      UncRootKept(path, tail);
    } else {
      var other := Head(path) + tail;
      assert other[..2] == path[..2] && other[2..] == tail;
      assert !IsUnc(other) && IsDrive(other);
    }
  }

  /** The components of a Windows path, read off the text after its root. */
  lemma WindowsParts(path: string)
    requires SplitRoot(path).Some? && SplitRoot(path).value.2
    ensures Parse(path) == match Resolve([], Split(Tail(path), true))
                           case None => None
                           case Some(parts) => Some(HostPath(SplitRoot(path).value.0, parts, true))
  {
    WindowsRoot(path);
  }

  /** A `/` that no second separator follows is a Unix root. */
  lemma UnixRoot(path: string)
    ensures SplitRoot(path) == Some(("/", path, false)) <==> path != "" && path[0] == '/' && !IsUnc(path)
    ensures SplitRoot(path).Some? && !SplitRoot(path).value.2 ==> path != "" && path[0] == '/' && !IsUnc(path)
  {
    if IsUnc(path) {
      assert SplitRoot(path).Some? ==> SplitRoot(path).value.2;
    }
  }

  lemma RootParses()
    ensures Parse("/") == Some(HostPath("/", [], false))
  {
    SplitFree("", false);
    assert Split("/", false) == ["", ""];
  }

  lemma UncParses(slashes: string, server: string, c: char, share: string)
    requires |slashes| == 2 && IsUnc(slashes) && IsSeparator(true, c)
    requires server != "" && Free(server, true) && share != "" && Free(share, true)
    ensures Parse(slashes + server + [c] + share) == Some(HostPath("\\\\" + server + "\\" + share, [], true))
  {
    var path := slashes + (server + ([c] + (share + "")));
    assert path == slashes + server + [c] + share;
    UncNamesOf(slashes, server, c, share, "");
    assert SplitRoot(path) == Some(("\\\\" + server + "\\" + share, "", true));
    SplitFree("", true);
    assert [""][1..] == [];
  }

  // ---------------------------------------------------------------- what a path means

  /** A separator and more text below a path with a root: the pieces of the text continue the path's.
      Only the bare `/` is different, since two separators begin a UNC path. */
  lemma BelowContinues(path: string, c: char, more: string)
    requires SplitRoot(path).Some? && path != "/" && IsSeparator(SplitRoot(path).value.2, c)
    ensures var (root, rest, windows) := SplitRoot(path).value;
            Parse(path + [c] + more) ==
            match Resolve([], Split(rest, windows))
            case None => None
            case Some(parts) =>
              match Resolve(parts, Split(more, windows))
              case None => None
              case Some(longer) => Some(HostPath(root, longer, windows))
  {
    var (root, rest, windows) := SplitRoot(path).value;
    var longer := path + [c] + more;
    if windows {
      var below := Tail(path) + [c] + more;
      WindowsRoot(path);
      assert longer == Head(path) + below;
      WindowsRootKept(path, below);
      WindowsParts(longer);
      SplitJoined(Tail(path), c, more, true);
      ResolveJoined([], Split(Tail(path), true), Split(more, true));
    } else {
      UnixRoot(path);
      assert |path| >= 2 && longer[0] == path[0] && longer[1] == path[1];
      UnixRoot(longer);
      SplitJoined(path, c, more, false);
      ResolveJoined([], Split(path, false), Split(more, false));
    }
  }

  /** Below the bare `/` a second separator makes a UNC path of it, or no path at all. */
  lemma DoubledSlash(more: string)
    ensures Parse("/" + ['/'] + more).Some? ==> Parse("/" + ['/'] + more).value.windows
  {
    assert IsUnc("/" + ['/'] + more);
    UnixRoot("/" + ['/'] + more);
  }

  lemma DotsFree(windows: bool)
    ensures Split("..", windows) == [".."] && Split(".", windows) == ["."] && Split("", windows) == [""]
  {
    SplitFree("..", windows);
    SplitFree(".", windows);
    SplitFree("", windows);
  }

  /** `..` takes the last component away, and above the root there is nothing. */
  lemma ParentOf(path: string, c: char)
    requires Parse(path).Some? && IsSeparator(Parse(path).value.windows, c)
    ensures var h := Parse(path).value;
            Parse(path + [c] + "..") ==
            if h.parts == [] then None else Some(h.(parts := h.parts[..|h.parts| - 1]))
  {
    var h := Parse(path).value;
    if path == "/" {
      RootParses();
      assert path + [c] + ".." == "//..";
      assert Name("//.."[2..]) == ".." by {
        assert "//.."[2..] == ".." && forall d | d in ".." :: d == '.';
        NameStops("..", "");
        assert ".." + "" == "..";
      }
    } else {
      BelowContinues(path, c, "..");
      DotsFree(h.windows);
      assert [".."][1..] == [];
    }
  }

  /** An ordinary component is one level further down - but a `/` below `/` is not a level. */
  lemma Descends(path: string, c: char, name: string)
    requires Parse(path).Some? && IsSeparator(Parse(path).value.windows, c)
    requires Ordinary(name) && Free(name, Parse(path).value.windows)
    ensures var h := Parse(path).value;
            Parse(path + [c] + name) == Some(h.(parts := h.parts + [name])) <==> path != "/"
  {
    var h := Parse(path).value;
    if path == "/" {
      RootParses();
      DoubledSlash(name);
    } else {
      BelowContinues(path, c, name);
      SplitFree(name, h.windows);
      ResolveOrdinary(h.parts, [name]);
    }
  }

  /** Down into a directory and up again is where one was. */
  lemma DownAndUp(path: string, c: char, name: string)
    requires Parse(path).Some? && IsSeparator(Parse(path).value.windows, c)
    requires Ordinary(name) && Free(name, Parse(path).value.windows)
    ensures Parse(path + [c] + name + [c] + "..") == Parse(path) <==> path != "/"
  {
    var h := Parse(path).value;
    if path == "/" {
      RootParses();
      assert path + [c] + name + [c] + ".." == "/" + ['/'] + (name + [c] + "..");
      DoubledSlash(name + [c] + "..");
    } else {
      Descends(path, c, name);
      ParentOf(path + [c] + name, c);
      assert (h.parts + [name])[..|h.parts|] == h.parts;
    }
  }

  /** A trailing separator, and a `.`, say nothing. */
  lemma StaysPut(path: string, c: char, more: string)
    requires Parse(path).Some? && IsSeparator(Parse(path).value.windows, c)
    requires more == "" || more == "."
    ensures Parse(path + [c] + more) == Parse(path) <==> path != "/"
  {
    if path == "/" {
      RootParses();
      DoubledSlash(more);
    } else {
      BelowContinues(path, c, more);
      DotsFree(Parse(path).value.windows);
    }
  }

  /** A path that has climbed above its root stays outside, whatever follows. */
  lemma ClimbedStaysOut(path: string, c: char, more: string)
    requires SplitRoot(path).Some? && Parse(path).None? && IsSeparator(SplitRoot(path).value.2, c)
    ensures Parse(path + [c] + more).None?
  {
    if path == "/" {
      RootParses();
    }
    BelowContinues(path, c, more);
  }

  /** The roots: `/`, a drive, and a UNC server with its share, whichever slashes spell it. */
  lemma RootsParse(letter: char, a: char, b: char, c: char, server: string, share: string)
    requires IsAsciiAlphabetic(letter)
    requires IsSeparator(true, a) && IsSeparator(true, b) && IsSeparator(true, c)
    requires server != "" && Free(server, true) && share != "" && Free(share, true)
    ensures Parse("/") == Some(HostPath("/", [], false))
    ensures Parse([letter, ':']) == Some(HostPath([letter, ':'], [], true))
    ensures Parse([a, b] + server + [c] + share) == Some(HostPath("\\\\" + server + "\\" + share, [], true))
  {
    RootParses();
    DotsFree(true);
    var drive := [letter, ':'];
    assert !IsUnc(drive) && drive[2..] == "" && drive[..2] == drive;
    UncParses([a, b], server, c, share);
  }

  /** What has no place in a repository: a relative path, and a Windows path rooted at the current
      drive or in the current directory of another. */
  lemma UnrootedIsNone(path: string)
    ensures path == "" ==> Parse(path).None?
    ensures path != "" && !IsSeparator(true, path[0]) && !(|path| >= 2 && path[1] == ':') ==> Parse(path).None?
    ensures |path| >= 1 && path[0] == '\\' && (|path| >= 2 ==> !IsSeparator(true, path[1])) ==> Parse(path).None?
    ensures |path| > 2 && path[0] != '/' && path[1] == ':' && !IsSeparator(true, path[2]) ==> Parse(path).None?
  {
  }

  /** A UNC path without a server or without a share. */
  lemma NoShareIsNone(a: char, b: char, c: char, server: string)
    requires IsSeparator(true, a) && IsSeparator(true, b) && IsSeparator(true, c) && Free(server, true)
    ensures Parse([a, b] + server).None? && Parse([a, b] + server + [c]).None?
  {
    var path := [a, b] + server;
    assert path[2..] == server && (path + [c])[2..] == server + [c];
    assert server + "" == server;
    NameStops(server, "");
    NameStops(server, [c]);
  }

  // ---------------------------------------------------------------- printing lemmas

  function Joined(separator: char, rest: seq<string>): string {
    if rest == [] then "" else [separator] + rest[0] + Joined(separator, rest[1..])
  }

  /** Components a parser could have produced: none is special and none holds a `/`. */
  predicate Components(rest: seq<string>) {
    forall part | part in rest :: Ordinary(part) && Free(part, false)
  }

  lemma ComponentsTail(rest: seq<string>)
    requires Components(rest) && rest != []
    ensures Ordinary(rest[0]) && Free(rest[0], false) && Components(rest[1..])
  {
    assert rest[0] in rest && forall part | part in rest[1..] :: part in rest;
  }

  lemma {:induction false} ExtendIsJoined(base: string, separator: char, rest: seq<string>)
    requires base != "" && base[|base| - 1] != separator
    requires forall part | part in rest :: part != "" && separator !in part
    ensures Extend(base, separator, rest) == base + Joined(separator, rest)
    decreases |rest|
  {
    if rest == [] {
      assert base + "" == base;
    } else {
      assert rest[0] in rest && forall part | part in rest[1..] :: part in rest;
      var next := base + [separator] + rest[0];
      assert next[|next| - 1] == rest[0][|rest[0]| - 1];
      ExtendIsJoined(next, separator, rest[1..]);
      assert next + Joined(separator, rest[1..]) == base + ([separator] + rest[0] + Joined(separator, rest[1..]));
    }
  }

  lemma JoinedStep(base: string, separator: char, rest: seq<string>)
    requires rest != []
    ensures base + Joined(separator, rest) == base + [separator] + rest[0] + Joined(separator, rest[1..])
  {
  }

  lemma {:induction false} SplitPrinted(base: string, separator: char, rest: seq<string>, windows: bool)
    requires IsSeparator(windows, separator)
    requires forall part | part in rest :: Free(part, windows)
    ensures Split(base + Joined(separator, rest), windows) == Split(base, windows) + rest
    decreases |rest|
  {
    if rest == [] {
      assert base + "" == base;
    } else {
      assert rest[0] in rest && forall part | part in rest[1..] :: part in rest;
      var next := base + [separator] + rest[0];
      assert Split(next, windows) == Split(base, windows) + [rest[0]] by {
        SplitJoined(base, separator, rest[0], windows);
        SplitFree(rest[0], windows);
      }
      SplitPrinted(next, separator, rest[1..], windows);
      JoinedStep(base, separator, rest);
      assert Split(base, windows) + [rest[0]] + rest[1..] == Split(base, windows) + rest;
    }
  }

  /** Trailing separators leave only empty pieces. */
  lemma {:induction false} TrailingSeparators(s: string, u: string, windows: bool)
    requires forall c | c in u :: IsSeparator(windows, c)
    ensures Resolve([], Split(s + u, windows)) == Resolve([], Split(s, windows))
    decreases |u|
  {
    if u == "" {
      assert s + u == s;
    } else {
      assert u[0] in u && forall c | c in u[1..] :: c in u;
      assert s + u == s + [u[0]] + u[1..];
      TrailingSeparators(s + [u[0]], u[1..], windows);
      assert s + [u[0]] == s + [u[0]] + "";
      SplitJoined(s, u[0], "", windows);
      ResolveJoined([], Split(s, windows), [""]);
    }
  }

  /** Appending ordinary components to the text appends them to what it resolves to. */
  lemma ResolvePrinted(base: string, separator: char, rest: seq<string>, windows: bool)
    requires IsSeparator(windows, separator)
    requires forall part | part in rest :: Ordinary(part) && Free(part, windows)
    requires Resolve([], Split(base, windows)).Some?
    ensures Resolve([], Split(base + Joined(separator, rest), windows)) ==
            Some(Resolve([], Split(base, windows)).value + rest)
  {
    SplitPrinted(base, separator, rest, windows);
    ResolveJoined([], Split(base, windows), rest);
    ResolveOrdinary(Resolve([], Split(base, windows)).value, rest);
  }

  lemma {:induction false} TrimEndIs(s: string, r: string)
    requires r <= s && (r != "" ==> !IsSeparator(true, r[|r| - 1]))
    requires forall c | c in s[|r|..] :: IsSeparator(true, c)
    ensures TrimEnd(s) == r
    decreases |s|
  {
    if |r| < |s| {
      assert s[|r|..][|s| - 1 - |r|] == s[|s| - 1];
      assert forall c | c in s[..|s| - 1][|r|..] :: c in s[|r|..];
      TrimEndIs(s[..|s| - 1], r);
    } else {
      assert r == s;
    }
  }

  // ---------------------------------------------------------------- the printer agrees with the parser

  lemma TrimHead(head: string, tail: string)
    requires head != "" && !IsSeparator(true, head[|head| - 1])
    ensures TrimEnd(head + tail) == head + TrimEnd(tail)
  {
    var r := head + TrimEnd(tail);
    assert (head + tail)[|r|..] == tail[|TrimEnd(tail)|..];
    assert r <= head + tail;
    TrimEndIs(head + tail, r);
  }

  /** Printing keeps a text that does not end in a separator, and continues its trimmed tail. */
  lemma ThreeTexts(a: string, b: string, c: string)
    ensures a + b + c == a + (b + c)
  {
  }

  lemma PrintedText(head: string, tail: string, rest: seq<string>)
    requires head != "" && !IsSeparator(true, head[|head| - 1]) && StartsBelow(tail)
    requires forall part | part in rest :: Ordinary(part) && Free(part, true)
    ensures var printed := TrimEnd(tail) + Joined(SeparatorFor(head + tail), rest);
            Print(head + tail, rest) == head + printed && StartsBelow(printed)
  {
    var separator := SeparatorFor(head + tail);
    var trimmed := TrimEnd(tail);
    TrimHead(head, tail);
    var base := head + trimmed;
    assert !IsSeparator(true, base[|base| - 1]);
    ExtendIsJoined(base, separator, rest);
    ThreeTexts(head, trimmed, Joined(separator, rest));
    if trimmed != "" {
      assert (trimmed + Joined(separator, rest))[0] == tail[0];
    }
  }

  lemma TrimmedResolves(tail: string)
    ensures Resolve([], Split(TrimEnd(tail), true)) == Resolve([], Split(tail, true))
  {
    var trimmed := TrimEnd(tail);
    assert tail == trimmed + tail[|trimmed|..];
    TrailingSeparators(trimmed, tail[|trimmed|..], true);
  }

  lemma PrintedParts(target: string, tail: string, separator: char, rest: seq<string>)
    requires SplitRoot(target).Some? && SplitRoot(target).value.2 && IsSeparator(true, separator)
    requires Resolve([], Split(tail, true)).Some?
    requires forall part | part in rest :: Ordinary(part) && Free(part, true)
    requires StartsBelow(TrimEnd(tail) + Joined(separator, rest))
    ensures Parse(Head(target) + (TrimEnd(tail) + Joined(separator, rest))) ==
            Some(HostPath(SplitRoot(target).value.0, Resolve([], Split(tail, true)).value + rest, true))
  {
    var trimmed := TrimEnd(tail);
    WindowsRootKept(target, trimmed + Joined(separator, rest));
    WindowsParts(Head(target) + (trimmed + Joined(separator, rest)));
    TrimmedResolves(tail);
    ResolvePrinted(trimmed, separator, rest, true);
  }

  lemma PrintWindows(target: string, rest: seq<string>)
    requires Parse(target).Some? && Parse(target).value.windows
    requires forall part | part in rest :: Ordinary(part) && Free(part, true)
    ensures var t := Parse(target).value;
            Parse(Print(target, rest)) == Some(t.(parts := t.parts + rest))
  {
    var head, tail := Head(target), Tail(target);
    assert target == head + tail;
    assert StartsBelow(tail) && head != "" && !IsSeparator(true, head[|head| - 1]) by {
      WindowsRoot(target);
    }
    PrintedText(head, tail, rest);
    WindowsParts(target);
    PrintedParts(target, tail, SeparatorFor(target), rest);
  }

  predicate UnixTarget(target: string) {
    Parse(target).Some? && !Parse(target).value.windows
  }

  /** What printing below a Unix target amounts to. */
  lemma UnixPrint(target: string, rest: seq<string>)
    requires UnixTarget(target) && Components(rest)
    ensures SeparatorFor(target) == '/'
    ensures TrimEnd(target) == "" <==> target == "/"
    ensures target != "/" || rest != [] ==> Print(target, rest) == TrimEnd(target) + Joined('/', rest)
    ensures target == "/" && rest == [] ==> Print(target, rest) == "/"
    ensures target != "/" ==>
              && |TrimEnd(target)| >= 2
              && TrimEnd(target)[0] == '/' && !IsSeparator(true, TrimEnd(target)[1])
  {
    UnixRoot(target);
    assert target[0] == '/' && '/' in target;
    var trimmed := TrimEnd(target);
    assert |target| >= 2 ==> target[1] in target && !IsSeparator(true, target[1]);
    if trimmed == "" {
      assert target[|trimmed|..] == target;
      assert |target| == 1;
      if rest != [] {
        ComponentsTail(rest);
        var first := "/" + rest[0];
        assert first[|first| - 1] == rest[0][|rest[0]| - 1];
        ExtendIsJoined(first, '/', rest[1..]);
        assert "" + Joined('/', rest) == first + Joined('/', rest[1..]);
      }
    } else {
      ExtendIsJoined(trimmed, '/', rest);
    }
  }

  /** The text trimmed off the end of a target. */
  function Trimmings(target: string): string {
    target[|TrimEnd(target)|..]
  }

  /** When printing below `target` keeps what it prints: a Windows target would split a component
      at a backslash; a Unix target must not lose one in the trimming, and a lone `/` must not be
      followed by one, which would read as a UNC root. */
  predicate Carries(target: string, rest: seq<string>)
    requires Parse(target).Some?
  {
    if Parse(target).value.windows then forall part | part in rest :: '\\' !in part
    else
      && '\\' !in Trimmings(target)
      && !(target == "/" && rest != [] && "\\" <= rest[0])
  }

  lemma PrintUnix(target: string, rest: seq<string>)
    requires UnixTarget(target) && Components(rest) && Carries(target, rest)
    ensures var t := Parse(target).value;
            Parse(Print(target, rest)) == Some(t.(parts := t.parts + rest))
  {
    UnixPrint(target, rest);
    UnixRoot(target);
    var t := Parse(target).value;
    if target == "/" && rest == [] {
      assert t.parts + rest == t.parts;
    } else {
      var trimmed := TrimEnd(target);
      var printed := trimmed + Joined('/', rest);
      if target == "/" {
        ComponentsTail(rest);
        assert printed == "/" + rest[0] + Joined('/', rest[1..]);
        assert printed[1] == rest[0][0] && rest[0][0] in rest[0];
      } else {
        assert printed[0] == trimmed[0] && printed[1] == trimmed[1];
      }
      UnixRoot(printed);
      assert target == trimmed + Trimmings(target);
      TrailingSeparators(trimmed, Trimmings(target), false);
      ResolvePrinted(trimmed, '/', rest, false);
    }
  }

  function Total(parts: seq<string>): nat {
    if parts == [] then 0 else Total(parts[..|parts| - 1]) + |parts[|parts| - 1]|
  }

  lemma TotalPush(parts: seq<string>, part: string)
    ensures Total(parts + [part]) == Total(parts) + |part|
  {
    assert (parts + [part])[..|parts|] == parts;
  }

  /** A component lengthened by a backslash adds more than it did before, even in place of `..`. */
  lemma BackslashLengthens(stack: seq<string>, last: string)
    requires Resolve(stack, [last]).Some?
    ensures Resolve(stack, [last + ['\\']]).Some?
    ensures Total(Resolve(stack, [last + ['\\']]).value) > Total(Resolve(stack, [last]).value)
  {
    var longer := last + ['\\'];
    assert longer[|last|] == '\\';
    assert Ordinary(longer);
    ResolveOrdinary(stack, [longer]);
    TotalPush(stack, longer);
    TotalPush(stack, last);
    if stack != [] {
      TotalPush(stack[..|stack| - 1], stack[|stack| - 1]);
      assert stack == stack[..|stack| - 1] + [stack[|stack| - 1]];
    }
  }

  /** A separator added to a Unix path never shortens what it resolves to, and a backslash, which
      is part of a name there, lengthens it. */
  lemma PushLengthens(s: string, c: char)
    requires Resolve([], Split(s, false)).Some? && IsSeparator(true, c)
    ensures Resolve([], Split(s + [c], false)).Some?
    ensures Total(Resolve([], Split(s + [c], false)).value) >=
            Total(Resolve([], Split(s, false)).value) + (if c == '\\' then 1 else 0)
  {
    if c == '/' {
      TrailingSeparators(s, [c], false);
    } else {
      SplitPush(s, c, false);
      var pieces := Split(s, false);
      var before, last := pieces[..|pieces| - 1], pieces[|pieces| - 1];
      assert pieces == before + [last];
      ResolveJoined([], before, [last]);
      ResolveJoined([], before, [last + [c]]);
      BackslashLengthens(Resolve([], before).value, last);
    }
  }

  lemma {:induction false} TrimmingsLengthen(s: string, u: string)
    requires Resolve([], Split(s, false)).Some?
    requires forall c | c in u :: IsSeparator(true, c)
    ensures Resolve([], Split(s + u, false)).Some?
    ensures Total(Resolve([], Split(s + u, false)).value) >=
            Total(Resolve([], Split(s, false)).value) + (if '\\' in u then 1 else 0)
    decreases |u|
  {
    if u == "" {
      assert s + u == s;
    } else {
      assert u[0] in u && forall c | c in u[1..] :: c in u;
      assert s + u == s + [u[0]] + u[1..];
      PushLengthens(s, u[0]);
      TrimmingsLengthen(s + [u[0]], u[1..]);
    }
  }

  lemma {:induction false} TotalJoined(a: seq<string>, b: seq<string>)
    ensures Total(a + b) == Total(a) + Total(b)
    decreases |b|
  {
    if b == [] {
      assert a + b == a;
    } else {
      assert (a + b)[..|a + b| - 1] == a + b[..|b| - 1];
      TotalJoined(a, b[..|b| - 1]);
    }
  }

  /** A backslash in the trimmings was part of a name, and the printed path has lost it. */
  lemma TrimmedNameIsLost(target: string, rest: seq<string>)
    requires UnixTarget(target) && Components(rest) && '\\' in Trimmings(target)
    ensures var t := Parse(target).value;
            Parse(Print(target, rest)) != Some(t.(parts := t.parts + rest))
  {
    UnixPrint(target, rest);
    UnixRoot(target);
    var trimmed := TrimEnd(target);
    assert target != "/";
    var printed := trimmed + Joined('/', rest);
    assert printed[0] == trimmed[0] && printed[1] == trimmed[1];
    UnixRoot(printed);
    assert target == trimmed + Trimmings(target);
    var pieces := Split(trimmed, false);
    SplitPrinted(trimmed, '/', rest, false);
    ResolveJoined([], pieces, rest);
    if Resolve([], pieces).Some? {
      ResolvePrinted(trimmed, '/', rest, false);
      TrimmingsLengthen(trimmed, Trimmings(target));
      TotalJoined(Parse(target).value.parts, rest);
      TotalJoined(Resolve([], pieces).value, rest);
    }
  }

  /** Printing below a target and parsing the result gives the target's root and components followed
      by exactly the printed ones - if and only if `Carries` holds. */
  lemma PrintedParsesBack(target: string, rest: seq<string>)
    requires Parse(target).Some? && Components(rest)
    ensures var t := Parse(target).value;
            Parse(Print(target, rest)) == Some(t.(parts := t.parts + rest)) <==> Carries(target, rest)
  {
    var t := Parse(target).value;
    var printed := Print(target, rest);
    if Carries(target, rest) {
      if t.windows {
        PrintWindows(target, rest);
      } else {
        PrintUnix(target, rest);
      }
    } else if t.windows {
      if Parse(printed).Some? {
        ParsedParts(printed);
        var part :| part in rest && '\\' in part;
        assert part in t.parts + rest;
      }
    } else if '\\' in Trimmings(target) {
      TrimmedNameIsLost(target, rest);
    } else {
      UnixPrint(target, rest);
      ComponentsTail(rest);
      assert printed == "/" + rest[0] + Joined('/', rest[1..]);
      assert printed[1] == '\\';
      UnixRoot(printed);
    }
  }

  // ---------------------------------------------------------------- containment lemmas

  /** Roots as the parser writes them. */
  predicate Rooted(path: HostPath) {
    if path.windows then |path.root| >= 2 else path.root == "/"
  }

  lemma ParsedRoot(path: string)
    requires Parse(path).Some?
    ensures Rooted(Parse(path).value)
  {
  }

  /** A name as it is compared: by Windows rules the case of ASCII letters does not matter. */
  function Folded(windows: bool, name: string): string {
    if windows then seq(|name|, i requires 0 <= i < |name| => LowerAscii(name[i])) else name
  }

  function FoldedAll(windows: bool, names: seq<string>): seq<string> {
    seq(|names|, i requires 0 <= i < |names| => Folded(windows, names[i]))
  }

  /** Folding identifies an ASCII letter with its other case, and nothing else. */
  lemma FoldsCase(c: char, d: char)
    ensures LowerAscii(c) == LowerAscii(d) <==>
            || c == d
            || (&& IsAsciiAlphabetic(c) && IsAsciiAlphabetic(d)
                && (c as int == d as int + 32 || d as int == c as int + 32))
  {
  }

  lemma SameIsFolded(windows: bool, a: string, b: string)
    ensures Same(windows, a, b) <==> Folded(windows, a) == Folded(windows, b)
  {
    if Folded(windows, a) == Folded(windows, b) {
      forall i | 0 <= i < |a|
        ensures |a| == |b| && if windows then LowerAscii(a[i]) == LowerAscii(b[i]) else a[i] == b[i]
      {
        assert |Folded(windows, a)| == |a| && |Folded(windows, b)| == |b|;
        assert Folded(windows, a)[i] == Folded(windows, b)[i];
      }
      assert |Folded(windows, a)| == |a| && |Folded(windows, b)| == |b|;
    }
  }

  lemma PrefixIsSame(windows: bool, a: seq<string>, b: seq<string>)
    requires |a| <= |b|
    ensures FoldedAll(windows, a) <= FoldedAll(windows, b) <==> forall i | 0 <= i < |a| :: Same(windows, a[i], b[i])
  {
    forall i | 0 <= i < |a|
      ensures Same(windows, a[i], b[i]) <==> FoldedAll(windows, a)[i] == FoldedAll(windows, b)[i]
    {
      SameIsFolded(windows, a[i], b[i]);
    }
    assert FoldedAll(windows, a) <= FoldedAll(windows, b) ==>
             forall i | 0 <= i < |a| :: FoldedAll(windows, a)[i] == FoldedAll(windows, b)[i];
  }

  /** One path contains another when they are of one family and have one root, and its components
      are a prefix of the other's - on Windows, but for the case of ASCII letters. */
  lemma ContainsIsPrefix(ancestor: string, path: string)
    requires Parse(ancestor).Some? && Parse(path).Some?
    ensures var (a, p) := (Parse(ancestor).value, Parse(path).value);
            Contains(a, p) <==>
            && a.windows == p.windows
            && Folded(a.windows, a.root) == Folded(a.windows, p.root)
            && FoldedAll(a.windows, a.parts) <= FoldedAll(a.windows, p.parts)
  {
    var (a, p) := (Parse(ancestor).value, Parse(path).value);
    ParsedRoot(ancestor);
    ParsedRoot(path);
    SameIsFolded(a.windows || p.windows, p.root, a.root);
    if a.windows == p.windows && |a.parts| <= |p.parts| {
      PrefixIsSame(a.windows, a.parts, p.parts);
    }
  }

  lemma ContainsReflexive(path: HostPath)
    ensures Contains(path, path)
  {
  }

  lemma RootedContainsTransitive(a: HostPath, b: HostPath, c: HostPath)
    requires Rooted(a) && Rooted(b) && Rooted(c)
    requires Contains(a, b) && Contains(b, c)
    ensures Contains(a, c)
  {
    assert a.windows == b.windows == c.windows;
    forall i | 0 <= i < |a.parts|
      ensures Same(a.windows, a.parts[i], c.parts[i])
    {
      assert Same(a.windows, a.parts[i], b.parts[i]) && Same(a.windows, b.parts[i], c.parts[i]);
    }
  }

  /** Containment of paths is transitive, although each comparison decides for itself whether case
      matters: a Windows root never matches a Unix one. */
  lemma ContainsTransitive(a: string, b: string, c: string)
    requires Parse(a).Some? && Parse(b).Some? && Parse(c).Some?
    requires Contains(Parse(a).value, Parse(b).value) && Contains(Parse(b).value, Parse(c).value)
    ensures Contains(Parse(a).value, Parse(c).value)
  {
    ParsedRoot(a);
    ParsedRoot(b);
    ParsedRoot(c);
    RootedContainsTransitive(Parse(a).value, Parse(b).value, Parse(c).value);
  }

  /** A checkout, other than a bare root, that contains `path`. */
  predicate Holds(checkout: string, path: HostPath) {
    Parse(checkout).Some? && Parse(checkout).value.parts != [] && Contains(Parse(checkout).value, path)
  }

  /** A listed checkout that contains `path`, at `depth`. */
  ghost predicate HoldsAt(path: HostPath, checkouts: seq<string>, depth: nat) {
    exists checkout | checkout in checkouts :: Holds(checkout, path) && |Parse(checkout).value.parts| == depth
  }

  lemma {:induction false} DeepestIsDeepest(path: HostPath, checkouts: seq<string>)
    ensures match Deepest(path, checkouts)
            case None => forall checkout | checkout in checkouts :: !Holds(checkout, path)
            case Some(depth) =>
              && HoldsAt(path, checkouts, depth)
              && forall checkout | checkout in checkouts && Holds(checkout, path) ::
                   |Parse(checkout).value.parts| <= depth
  {
    if checkouts != [] {
      var front, last := checkouts[..|checkouts| - 1], checkouts[|checkouts| - 1];
      DeepestIsDeepest(path, front);
      assert last in checkouts;
      assert forall checkout :: checkout in checkouts <==> checkout in front || checkout == last;
      if Deepest(path, front).Some? {
        var holder :|
          holder in front && Holds(holder, path) && |Parse(holder).value.parts| == Deepest(path, front).value;
        assert holder in checkouts;
      }
    }
  }

  /** The answer is the components below the deepest listed checkout, other than a bare root, that
      contains the directory; there is one exactly when some such checkout does. */
  lemma InnermostIsDeepest(cwd: string, checkouts: seq<string>)
    requires Parse(cwd).Some?
    ensures var path := Parse(cwd).value;
            match InnermostRest(cwd, checkouts)
            case None => forall checkout | checkout in checkouts :: !Holds(checkout, path)
            case Some(rest) =>
              && rest == path.parts[|path.parts| - |rest|..]
              && HoldsAt(path, checkouts, |path.parts| - |rest|)
              && forall checkout | checkout in checkouts && Holds(checkout, path) ::
                   |Parse(checkout).value.parts| <= |path.parts| - |rest|
  {
    DeepestIsDeepest(Parse(cwd).value, checkouts);
  }

  /** Reordering or repeating checkouts does not change the answer. */
  lemma InnermostIgnoresOrder(cwd: string, checkouts: seq<string>, others: seq<string>)
    requires forall checkout :: checkout in checkouts <==> checkout in others
    ensures InnermostRest(cwd, checkouts) == InnermostRest(cwd, others)
  {
    if Parse(cwd).Some? {
      DeepestIsDeepest(Parse(cwd).value, checkouts);
      DeepestIsDeepest(Parse(cwd).value, others);
    }
  }

  lemma InnermostComponents(cwd: string, checkouts: seq<string>)
    requires InnermostRest(cwd, checkouts).Some?
    ensures Components(InnermostRest(cwd, checkouts).value)
    ensures Parse(cwd).Some?
    ensures forall part | part in InnermostRest(cwd, checkouts).value ::
              part in Parse(cwd).value.parts && Free(part, Parse(cwd).value.windows)
  {
    ParsedParts(cwd);
  }

  // ---------------------------------------------------------------- main results

  /** A directory inside a checkout, moved to a rooted target, lands below the target with exactly
      its components below the innermost checkout - if and only if the target carries them. */
  lemma RebasedLandsBelowTarget(cwd: string, checkouts: seq<string>, target: string)
    requires InnermostRest(cwd, checkouts).Some? && Parse(target).Some?
    ensures var rest := InnermostRest(cwd, checkouts).value;
            var t := Parse(target).value;
            var rebased := Parse(Rebase(cwd, checkouts, target).value);
            && (rebased == Some(HostPath(t.root, t.parts + rest, t.windows)) <==> Carries(target, rest))
            && (Carries(target, rest) ==> Below(rebased.value, t) == Some(rest))
  {
    InnermostComponents(cwd, checkouts);
    PrintedParsesBack(target, InnermostRest(cwd, checkouts).value);
  }

  lemma {:induction false} SplitCharacters(s: string)
    ensures forall piece, c | piece in Split(s, false) && c in piece :: c in s
  {
    if s != "" {
      SplitCharacters(s[1..]);
      assert forall c | c in s[1..] :: c in s;
      assert Split(s[1..], false)[0] in Split(s[1..], false);
    }
  }

  /** Two paths of one family, without backslashes if they are Unix paths, always agree. */
  lemma SameFamilyCarries(cwd: string, checkouts: seq<string>, target: string)
    requires InnermostRest(cwd, checkouts).Some? && Parse(target).Some?
    requires Parse(cwd).value.windows == Parse(target).value.windows
    requires !Parse(target).value.windows ==> '\\' !in cwd && '\\' !in target
    ensures Carries(target, InnermostRest(cwd, checkouts).value)
  {
    InnermostComponents(cwd, checkouts);
    var rest := InnermostRest(cwd, checkouts).value;
    if Parse(target).value.windows {
      forall part | part in rest ensures '\\' !in part {
        assert Free(part, true);
      }
    } else {
      UnixRoot(cwd);
      var pieces := Split(cwd, false);
      SplitCharacters(cwd);
      ResolvedParts([], pieces);
      if rest != [] {
        assert rest[0] in rest && rest[0] in pieces && rest[0][0] in rest[0];
      }
    }
  }

  /** A checkout containing something inside `t`, and at least as deep, lies inside `t`. */
  lemma NoDeeper(t: HostPath, rest: seq<string>, c: HostPath)
    requires Contains(c, HostPath(t.root, t.parts + rest, t.windows))
    ensures |t.parts| <= |c.parts| ==> Contains(t, c)
  {
    var moved := HostPath(t.root, t.parts + rest, t.windows);
    if |t.parts| <= |c.parts| {
      forall i | 0 <= i < |t.parts|
        ensures Same(c.windows || t.windows, t.parts[i], c.parts[i])
      {
        assert Same(t.windows || c.windows, c.parts[i], moved.parts[i]);
      }
    }
  }

  /** Rebasing again changes nothing, when the target is itself a listed checkout with no other
      listed checkout inside it. */
  lemma RebasingIsIdempotent(cwd: string, checkouts: seq<string>, target: string)
    requires InnermostRest(cwd, checkouts).Some? && Parse(target).Some?
    requires Carries(target, InnermostRest(cwd, checkouts).value)
    requires target in checkouts && Parse(target).value.parts != []
    requires forall checkout | checkout in checkouts && Parse(checkout).Some? ::
               Contains(Parse(target).value, Parse(checkout).value) ==>
                 |Parse(checkout).value.parts| == |Parse(target).value.parts|
    ensures var rebased := Rebase(cwd, checkouts, target).value;
            Rebase(rebased, checkouts, target) == Some(rebased)
  {
    InnermostComponents(cwd, checkouts);
    var rest := InnermostRest(cwd, checkouts).value;
    PrintedParsesBack(target, rest);
    var t := Parse(target).value;
    var moved := HostPath(t.root, t.parts + rest, t.windows);
    DeepestIsDeepest(moved, checkouts);
    assert Holds(target, moved);
    forall checkout | checkout in checkouts && Holds(checkout, moved)
      ensures |Parse(checkout).value.parts| <= |t.parts|
    {
      NoDeeper(t, rest, Parse(checkout).value);
    }
    assert moved.parts[|t.parts|..] == rest;
  }

  /** The text that rebasing gives: the target without its trailing separators, then each component
      behind a backslash when the target has backslashes only, and behind a slash otherwise. */
  lemma RebasedText(cwd: string, checkouts: seq<string>, target: string)
    requires InnermostRest(cwd, checkouts).Some? && TrimEnd(target) != ""
    ensures var rest := InnermostRest(cwd, checkouts).value;
            var separator := if '\\' in target && '/' !in target then '\\' else '/';
            (forall part | part in rest :: separator !in part) ==>
              Rebase(cwd, checkouts, target) == Some(TrimEnd(target) + Joined(separator, rest))
  {
    InnermostComponents(cwd, checkouts);
    var rest := InnermostRest(cwd, checkouts).value;
    if forall part | part in rest :: SeparatorFor(target) !in part {
      ExtendIsJoined(TrimEnd(target), SeparatorFor(target), rest);
    }
  }

  /** A directory just inside a checkout is moved; one beside it, spelled through the checkout, is
      not inside, however it is spelled. */
  lemma StepsOutside(checkout: string, c: char, name: string, target: string)
    requires Parse(checkout).Some? && Parse(checkout).value.parts != []
    requires IsSeparator(Parse(checkout).value.windows, c)
    requires Ordinary(name) && Free(name, Parse(checkout).value.windows)
    ensures InnermostRest(checkout + [c] + name, [checkout]) == Some([name])
    ensures var h := Parse(checkout).value;
            !Same(h.windows, name, h.parts[|h.parts| - 1]) ==>
              Rebase(checkout + [c] + ".." + [c] + name, [checkout], target).None?
  {
    var h := Parse(checkout).value;
    RootParses();
    Descends(checkout, c, name);
    InnermostIsDeepest(checkout + [c] + name, [checkout]);
    assert checkout in [checkout] && Holds(checkout, h.(parts := h.parts + [name]));
    ParentOf(checkout, c);
    Descends(checkout + [c] + "..", c, name);
    InnermostIsDeepest(checkout + [c] + ".." + [c] + name, [checkout]);
  }

  // ---------------------------------------------------------------- outside `Carries`

  /** Unix components whose printed path stays one: it does not read as a UNC path. */
  predicate PlainUnix(parts: seq<string>) {
    Components(parts) && (parts != [] ==> !("\\" <= parts[0]))
  }

  lemma PlainUnixParses(parts: seq<string>)
    requires PlainUnix(parts)
    ensures Parse(Print("/", parts)) == Some(HostPath("/", parts, false))
  {
    RootParses();
    TrimEndIs("/", "");
    if parts != [] {
      ComponentsTail(parts);
    }
    PrintedParsesBack("/", parts);
    assert [] + parts == parts;
  }

  /** What lies below the only checkout there is. */
  lemma BelowOnlyCheckout(base: seq<string>, rest: seq<string>)
    requires base != [] && PlainUnix(base) && Components(rest)
    ensures InnermostRest(Print("/", base + rest), [Print("/", base)]) == Some(rest)
  {
    assert base[0] in base;
    var (cwd, checkout) := (Print("/", base + rest), Print("/", base));
    PlainUnixParses(base);
    PlainUnixParses(base + rest);
    var path := Parse(cwd).value;
    assert Depth(path, checkout) == Some(|base|);
    assert [checkout][..0] == [];
    assert Deepest(path, [checkout]) == Some(|base|);
  }

  lemma UnixName(name: string)
    requires Ordinary(name) && Free(name, false) && name[0] != '\\'
    ensures Parse("/" + name) == Some(HostPath("/", [name], false))
  {
    SplitFree(name, false);
    assert ("/" + name)[1..] == name;
    assert Split("/" + name, false) == [""] + [name];
    assert ([""] + [name])[1..] == [name];
    ResolveOrdinary([], [name]);
    assert [] + [name] == [name];
    UnixRoot("/" + name);
  }

  lemma BackslashTarget()
    ensures Parse("/t\\") == Some(HostPath("/", ["t\\"], false)) && Parse("/t") == Some(HostPath("/", ["t"], false))
  {
    UnixName("t\\");
    UnixName("t");
    assert "/" + "t\\" == "/t\\" && "/" + "t" == "/t";
  }

  /** A Unix directory name that ends in a backslash is cut: below `/t\`, everything lands in `/t`. */
  lemma TrailingBackslashIsLost(base: seq<string>, rest: seq<string>)
    requires base != [] && PlainUnix(base) && Components(rest)
    ensures Parse("/t\\") == Some(HostPath("/", ["t\\"], false))
    ensures var rebased := Rebase(Print("/", base + rest), [Print("/", base)], "/t\\");
            rebased.Some? && Parse(rebased.value) == Some(HostPath("/", ["t"] + rest, false))
  {
    BackslashTarget();
    BelowOnlyCheckout(base, rest);
    UnixPrint("/t\\", rest);
    UnixPrint("/t", rest);
    TrimEndIs("/t\\", "/t");
    TrimEndIs("/t", "/t");
    assert Trimmings("/t") == "";
    PrintedParsesBack("/t", rest);
  }

  /** Below `/`, a component that begins with a backslash, and the one after it, become the root of a
      UNC path. */
  lemma BackslashBecomesRoot(base: seq<string>, server: string, share: string)
    requires base != [] && PlainUnix(base)
    requires server != "" && Free(server, true) && share != "" && Free(share, true) && Ordinary(share)
    ensures var rebased := Rebase(Print("/", base + ["\\" + server, share]), [Print("/", base)], "/");
            && rebased == Some("/\\" + server + "/" + share)
            && Parse(rebased.value) == Some(HostPath("\\\\" + server + "\\" + share, [], true))
  {
    var first := "\\" + server;
    var rest := [first, share];
    assert first[0] == '\\' && Ordinary(first) && Free(first, false);
    BelowOnlyCheckout(base, rest);
    RootParses();
    UnixPrint("/", rest);
    TrimEndIs("/", "");
    assert rest[1..] == [share] && [share][1..] == [];
    assert Joined('/', [share]) == ['/'] + share + "";
    assert Joined('/', rest) == ['/'] + first + Joined('/', [share]);
    assert "" + Joined('/', rest) == "/\\" + server + "/" + share;
    UncParses("/\\", server, '/', share);
    assert "/\\" + server + ['/'] + share == "/\\" + server + "/" + share;
  }

  lemma DriveParses(below: string, parts: seq<string>)
    requires below != "" && below[0] == '/' && Split(below, true) == [""] + parts
    requires forall part | part in parts :: Ordinary(part)
    ensures Parse("C:" + below) == Some(HostPath("C:", parts, true))
  {
    var path := "C:" + below;
    assert !IsUnc(path) && IsDrive(path) && path[2] == '/' && path[2..] == below && path[..2] == "C:";
    assert ([""] + parts)[1..] == parts;
    ResolveOrdinary([], parts);
    assert [] + parts == parts;
  }

  lemma SplitBelowDrive(a: string, b: string)
    requires Free(a, true) && Free(b, true)
    ensures Split("/t" + ['/'] + (a + ['\\'] + b), true) == [""] + ["t", a, b]
  {
    SplitJoined(a, '\\', b, true);
    SplitFree(a, true);
    SplitFree(b, true);
    SplitFree("t", true);
    SplitFree("", true);
    SplitJoined("", '/', "t", true);
    assert "" + ['/'] + "t" == "/t";
    SplitJoined("/t", '/', a + ['\\'] + b, true);
  }

  lemma PrintedOne(target: string, part: string)
    requires target != "" && !IsSeparator(true, target[|target| - 1]) && SeparatorFor(target) == '/'
    requires part != "" && '/' !in part
    ensures Print(target, [part]) == target + (['/'] + part)
  {
    TrimEndIs(target, target);
    ExtendIsJoined(target, '/', [part]);
    assert Joined('/', [part]) == ['/'] + part + "";
  }

  /** Below a Windows directory a backslash inside a Unix name separates: `a\b` becomes `a` and `b`. */
  lemma BackslashSeparates(base: seq<string>, a: string, b: string)
    requires base != [] && PlainUnix(base)
    requires Ordinary(a) && Free(a, true) && Ordinary(b) && Free(b, true)
    ensures var rebased := Rebase(Print("/", base + [a + ['\\'] + b]), [Print("/", base)], "C:/t");
            && rebased.Some?
            && Parse(rebased.value) == Some(HostPath("C:", ["t", a, b], true))
  {
    var part := a + ['\\'] + b;
    assert |part| == |a| + 1 + |b| && part[|a|] == '\\';
    assert Ordinary(part) && Free(part, false);
    BelowOnlyCheckout(base, [part]);
    PrintedOne("C:/t", part);
    SplitBelowDrive(a, b);
    assert "C:/t" + (['/'] + part) == "C:" + ("/t" + ['/'] + part);
    DriveParses("/t" + ['/'] + part, ["t", a, b]);
  }
}
