/** Guest paths: lexical normalisation, and translation into the sandbox. */
module PathNormalizer {
  import opened Words

  datatype PathError = Escape | Malformed | OutsideSandbox

  // ---- components ----------------------------------------------------------------------------------------------

  function FindChar(s: string, c: char): (n: nat)
    ensures n <= |s| && (n < |s| ==> s[n] == c) && c !in s[..n]
  {
    if s == [] || s[0] == c then 0
    else
      var n := FindChar(s[1..], c);
      assert s[..n + 1] == [s[0]] + s[1..][..n];
      n + 1
  }

  /** `split('/')`: never empty, and no piece holds a slash. */
  function Split(s: string): (r: seq<string>)
    ensures |r| > 0 && forall k :: 0 <= k < |r| ==> '/' !in r[k]
    decreases |s|
  {
    var n := FindChar(s, '/');
    if n == |s| then
      assert s[..n] == s;
      [s]
    else [s[..n]] + Split(s[n + 1..])
  }

  function Join(comps: seq<string>): string {
    if comps == [] then ""
    else if |comps| == 1 then comps[0]
    else comps[0] + "/" + Join(comps[1..])
  }

  predicate Skipped(c: string) {
    c == "" || c == "."
  }

  predicate Up(c: string) {
    c == ".."
  }

  predicate Name(c: string) {
    c != "" && c != "." && c != ".."
  }

  predicate HasNul(c: string) {
    '\0' in c
  }

  /** An ordinary component that no later join can misread. */
  predicate Clean(c: string) {
    c != "" && c != "." && c != ".." && '\0' !in c && '/' !in c
  }

  // ---- the walk -------------------------------------------------------------------------------------------------

  function Walk(comps: seq<string>, out: seq<string>): (r: Result<seq<string>, PathError>)
    decreases |comps|
  {
    if comps == [] then Ok(out)
    else if Skipped(comps[0]) then Walk(comps[1..], out)
    else if Up(comps[0]) then if out == [] then Err(Escape) else Walk(comps[1..], out[..|out| - 1])
    else if HasNul(comps[0]) then Err(Malformed)
    else Walk(comps[1..], out + [comps[0]])
  }

  function Normalize(path: string): (r: Result<seq<string>, PathError>) {
    if path == "" then Err(Malformed) else Walk(Split(path), [])
  }

  /** `normalize_ios_path`. */
  method NormalizeIosPath(path: string) returns (r: Result<seq<string>, PathError>)
    ensures r == Normalize(path)
  {
    hide Split;
    if path == "" { return Err(Malformed); }
    var comps := Split(path);
    var out: seq<string> := [];
    assert comps[0..] == comps;
    for i := 0 to |comps|
      invariant Walk(comps[i..], out) == Walk(comps, [])
    {
      var c := comps[i];
      assert comps[i..][0] == c && comps[i..][1..] == comps[i + 1..];
      if c == "" || c == "." {
        continue;
      }
      if c == ".." {
        if out == [] { return Err(Escape); }
        out := out[..|out| - 1];
      } else if '\0' in c {
        return Err(Malformed);
      } else {
        out := out + [c];
      }
    }
    r := Ok(out);
  }

  // ---- counting ---------------------------------------------------------------------------------------------------

  function Ups(comps: seq<string>): nat {
    if comps == [] then 0 else (if comps[0] == ".." then 1 else 0) + Ups(comps[1..])
  }

  function Names(comps: seq<string>): nat {
    if comps == [] then 0 else (if Name(comps[0]) then 1 else 0) + Names(comps[1..])
  }

  predicate NulFree(comps: seq<string>) {
    forall k :: 0 <= k < |comps| ==> !HasNul(comps[k])
  }

  /** After its first `n` components the path stands above a root that is `depth` levels up. */
  ghost predicate Above(comps: seq<string>, n: nat, depth: nat) {
    n <= |comps| && Ups(comps[..n]) > depth + Names(comps[..n])
  }

  /** The walk climbs out before it meets a NUL. */
  ghost predicate Climbs(comps: seq<string>, depth: nat) {
    exists n: nat :: n <= |comps| && NulFree(comps[..n]) && Above(comps, n, depth)
  }

  lemma {:induction false} AboveStep(comps: seq<string>, n: nat, depth: nat)
    requires comps != [] && 0 < n <= |comps|
    ensures Up(comps[0]) && depth > 0 ==> (Above(comps, n, depth) <==> Above(comps[1..], n - 1, depth - 1))
    ensures Skipped(comps[0]) ==> (Above(comps, n, depth) <==> Above(comps[1..], n - 1, depth))
    ensures Name(comps[0]) ==> (Above(comps, n, depth) <==> Above(comps[1..], n - 1, depth + 1))
    ensures NulFree(comps[..n]) <==> !HasNul(comps[0]) && NulFree(comps[1..][..n - 1])
  {
    var s, t := comps[..n], comps[1..][..n - 1];
    assert s[0] == comps[0] && s[1..] == t && s == [comps[0]] + t;
    if NulFree(s) {
      assert !HasNul(s[0]);
      forall k | 0 <= k < |t| ensures !HasNul(t[k]) { assert s[k + 1] == t[k]; }
    }
  }

  lemma {:induction false} UpRises(comps: seq<string>)
    requires comps != [] && Up(comps[0])
    ensures Above(comps, 1, 0)
  {
    var s := comps[..1];
    assert s[0] == comps[0] && s[1..] == [] && !Name(s[0]);
    assert Ups(s[1..]) == 0 && Names(s[1..]) == 0;
  }

  /** One component of the walk moves the question one component on. */
  lemma {:induction false} ClimbsStep(comps: seq<string>, depth: nat)
    requires comps != []
    ensures Up(comps[0]) && depth > 0 ==> (Climbs(comps, depth) <==> Climbs(comps[1..], depth - 1))
    ensures Up(comps[0]) && depth == 0 ==> Climbs(comps, depth)
    ensures Skipped(comps[0]) ==> (Climbs(comps, depth) <==> Climbs(comps[1..], depth))
    ensures Name(comps[0]) ==>
              (Climbs(comps, depth) <==> !HasNul(comps[0]) && Climbs(comps[1..], depth + 1))
  {
    var c := comps[0];
    var next: int := if Up(c) then depth - 1 else if Name(c) then depth + 1 else depth;
    if Up(c) && depth == 0 {
      UpRises(comps);
      assert NulFree(comps[..1]) && Above(comps, 1, depth);
    } else {
      if Climbs(comps, depth) {
        var n: nat :| n <= |comps| && NulFree(comps[..n]) && Above(comps, n, depth);
        AboveNotEmpty(comps, n, depth);
        AboveStep(comps, n, depth);
        assert Above(comps[1..], n - 1, next);
      }
      if !HasNul(c) && Climbs(comps[1..], next) {
        var m: nat :| m <= |comps[1..]| && NulFree(comps[1..][..m]) && Above(comps[1..], m, next);
        AboveStep(comps, m + 1, depth);
        assert Above(comps, m + 1, depth);
      }
    }
  }

  lemma {:induction false} AboveNotEmpty(comps: seq<string>, n: nat, depth: nat)
    requires Above(comps, n, depth)
    ensures n > 0
  {
  }

  /** The walk fails with `Escape` exactly when some prefix, free of NULs, has more `..` than
      ordinary components and levels above it; otherwise it fails, with `Malformed`, exactly when
      there is a NUL. */
  lemma {:induction false} WalkFailsIff(comps: seq<string>, out: seq<string>)
    ensures Walk(comps, out) == Err(Escape) <==> Climbs(comps, |out|)
    ensures Walk(comps, out) == Err(Malformed) <==> !Climbs(comps, |out|) && !NulFree(comps)
    ensures Walk(comps, out).Ok? <==> !Climbs(comps, |out|) && NulFree(comps)
    decreases |comps|
  {
    hide Climbs;
    if comps == [] {
      EmptyNeverClimbs(|out|);
    } else {
      ClimbsStep(comps, |out|);
      assert NulFree(comps) <==> !HasNul(comps[0]) && NulFree(comps[1..]) by {
        assert comps == [comps[0]] + comps[1..];
      }
      if Skipped(comps[0]) {
        WalkFailsIff(comps[1..], out);
      } else if Up(comps[0]) {
        if out != [] { WalkFailsIff(comps[1..], out[..|out| - 1]); }
      } else if !HasNul(comps[0]) {
        WalkFailsIff(comps[1..], out + [comps[0]]);
      }
    }
  }

  lemma EmptyNeverClimbs(depth: nat)
    ensures !Climbs([], depth)
  {
  }

  /** The lexical guard: on a non-empty path without NULs it refuses exactly when some prefix of the
      components has more `..` than ordinary components. */
  lemma {:induction false} EscapeIff(path: string)
    requires path != "" && '\0' !in path
    ensures Normalize(path) == Err(Escape)
            <==> exists n: nat :: n <= |Split(path)| && Ups(Split(path)[..n]) > Names(Split(path)[..n])
    ensures Normalize(path).Ok?
            <==> forall n: nat :: n <= |Split(path)| ==> Ups(Split(path)[..n]) <= Names(Split(path)[..n])
  {
    var comps := Split(path);
    SplitHasNoNul(path);
    WalkFailsIff(comps, []);
    forall n: nat | n <= |comps|
      ensures NulFree(comps[..n]) && (Above(comps, n, 0) <==> Ups(comps[..n]) > Names(comps[..n]))
    {
    }
  }

  lemma {:induction false} SplitHasNoNul(path: string)
    ensures '\0' !in path <==> NulFree(Split(path))
    decreases |path|
  {
    hide NulFree, FindChar;
    var n := FindChar(path, '/');
    if n == |path| {
      assert Split(path) == [path] + [];
      NulFreeCons(path, []);
      NulFreeNothing();
    } else {
      SplitHasNoNul(path[n + 1..]);
      var head := path[..n];
      assert path == head + [path[n]] + path[n + 1..];
      NulFreeCons(head, Split(path[n + 1..]));
    }
  }

  lemma NulFreeNothing()
    ensures NulFree([])
  {
  }

  lemma {:induction false} NulFreeCons(head: string, tail: seq<string>)
    ensures NulFree([head] + tail) <==> !HasNul(head) && NulFree(tail)
  {
    var s := [head] + tail;
    if NulFree(s) {
      assert !HasNul(s[0]);
      forall k | 0 <= k < |tail| ensures !HasNul(tail[k]) { assert s[k + 1] == tail[k]; }
    }
  }

  // ---- what survives ----------------------------------------------------------------------------------------------

  /** Component `i` is ordinary and is never popped: from it on, no stretch has more `..` than
      ordinary components. */
  ghost predicate Survives(comps: seq<string>, i: nat) {
    i < |comps| && Name(comps[i]) && NeverBelow(comps[i + 1..])
  }

  ghost predicate NeverBelow(comps: seq<string>) {
    forall n: nat :: n <= |comps| ==> !Above(comps, n, 0)
  }

  ghost function Survivors(comps: seq<string>): seq<string>
    decreases |comps|
  {
    if comps == [] then []
    else if Survives(comps, 0) then [comps[0]] + Survivors(comps[1..])
    else Survivors(comps[1..])
  }

  /** How many of the levels already open the rest of the path closes for good. */
  function Deficit(comps: seq<string>): nat
    decreases |comps|
  {
    if comps == [] then 0
    else if Up(comps[0]) then Deficit(comps[1..]) + 1
    else if Name(comps[0]) && Deficit(comps[1..]) > 0 then Deficit(comps[1..]) - 1
    else Deficit(comps[1..])
  }

  lemma {:induction false} DeficitIff(comps: seq<string>, depth: nat)
    ensures Deficit(comps) <= depth <==> forall n: nat :: n <= |comps| ==> !Above(comps, n, depth)
    decreases |comps|
  {
    hide Above;
    AboveZero(comps, depth);
    if comps != [] {
      var c := comps[0];
      if Up(c) && depth == 0 {
        assert Above(comps, 1, 0) by { UpRises(comps); }
      } else {
        var next: nat := if Up(c) then depth - 1 else if Name(c) then depth + 1 else depth;
        DeficitIff(comps[1..], next);
        forall n: nat | 0 < n <= |comps|
          ensures Above(comps, n, depth) <==> Above(comps[1..], n - 1, next)
        {
          AboveStep(comps, n, depth);
        }
        forall m: nat | m <= |comps[1..]|
          ensures Above(comps[1..], m, next) <==> Above(comps, m + 1, depth)
        {
          AboveStep(comps, m + 1, depth);
        }
      }
    }
  }

  lemma {:induction false} AboveZero(comps: seq<string>, depth: nat)
    ensures !Above(comps, 0, depth)
  {
  }

  /** The stack walk keeps, of the components already there, all but the deficit, and then the
      components that survive. */
  lemma {:induction false} WalkKeepsSurvivors(comps: seq<string>, out: seq<string>)
    requires Walk(comps, out).Ok?
    ensures Deficit(comps) <= |out|
    ensures Walk(comps, out).value == out[..|out| - Deficit(comps)] + Survivors(comps)
    decreases |comps|
  {
    hide Survives;
    if comps != [] {
      var rest := comps[1..];
      SurvivesFirst(comps);
      if Skipped(comps[0]) {
        WalkKeepsSurvivors(rest, out);
      } else if Up(comps[0]) {
        WalkKeepsSurvivors(rest, out[..|out| - 1]);
        assert out[..|out| - 1][..|out| - 1 - Deficit(rest)] == out[..|out| - 1 - Deficit(rest)];
      } else {
        var more := out + [comps[0]];
        WalkKeepsSurvivors(rest, more);
        if Deficit(rest) == 0 {
          assert more[..|more|] + Survivors(rest) == out[..|out|] + ([comps[0]] + Survivors(rest));
        } else {
          assert more[..|more| - Deficit(rest)] == out[..|out| - (Deficit(rest) - 1)];
        }
      }
    }
  }

  lemma {:induction false} SurvivesFirst(comps: seq<string>)
    requires comps != []
    ensures Survives(comps, 0) <==> Name(comps[0]) && Deficit(comps[1..]) == 0
  {
    DeficitIff(comps[1..], 0);
  }

  /** Lexical normalisation keeps, in order, exactly the components that are never popped. */
  lemma {:induction false} NormalizeKeepsSurvivors(path: string)
    requires Normalize(path).Ok?
    ensures Normalize(path).value == Survivors(Split(path))
  {
    hide Walk, Split, Survivors;
    WalkKeepsSurvivors(Split(path), []);
  }

  // ---- clean results and fixed points -----------------------------------------------------------------------------

  lemma {:induction false} WalkIsClean(comps: seq<string>, out: seq<string>)
    requires forall k :: 0 <= k < |comps| ==> '/' !in comps[k]
    requires forall k :: 0 <= k < |out| ==> Clean(out[k])
    requires Walk(comps, out).Ok?
    ensures forall k :: 0 <= k < |Walk(comps, out).value| ==> Clean(Walk(comps, out).value[k])
    decreases |comps|
  {
    if comps != [] {
      if Skipped(comps[0]) {
        WalkIsClean(comps[1..], out);
      } else if Up(comps[0]) {
        WalkIsClean(comps[1..], out[..|out| - 1]);
      } else {
        WalkIsClean(comps[1..], out + [comps[0]]);
      }
    }
  }

  lemma {:induction false} SplitJoin(comps: seq<string>)
    requires comps != [] && forall k :: 0 <= k < |comps| ==> '/' !in comps[k]
    ensures Split(Join(comps)) == comps
    decreases |comps|
  {
    var s := Join(comps);
    var n := FindChar(s, '/');
    if |comps| == 1 {
      assert s[..n] == s;
    } else {
      var c := comps[0];
      assert s[..|c|] == c && s[|c|] == '/' && s[|c| + 1..] == Join(comps[1..]);
      SplitJoin(comps[1..]);
    }
  }

  lemma {:induction false} WalkClean(comps: seq<string>, out: seq<string>)
    requires forall k :: 0 <= k < |comps| ==> Clean(comps[k])
    ensures Walk(comps, out) == Ok(out + comps)
    decreases |comps|
  {
    if comps == [] {
      assert out + comps == out;
    } else {
      assert Clean(comps[0]);
      WalkClean(comps[1..], out + [comps[0]]);
      assert out + [comps[0]] + comps[1..] == out + comps;
    }
  }

  /** A result has only clean components. Normalising it again changes nothing if it has any; an empty
      result joins to the empty path, which is malformed. */
  lemma {:induction false} NormalizeIsFixed(path: string)
    requires Normalize(path).Ok?
    ensures var r := Normalize(path).value;
            && (forall k :: 0 <= k < |r| ==> Clean(r[k]))
            && Normalize(Join(r)) == if r == [] then Err(Malformed) else Ok(r)
  {
    hide Split, Walk;
    WalkIsClean(Split(path), []);
    var r := Normalize(path).value;
    if r != [] {
      SplitJoin(r);
      WalkClean(r, []);
      JoinNotEmpty(r);
      assert [] + r == r;
    }
  }

  lemma {:induction false} JoinNotEmpty(comps: seq<string>)
    requires comps != [] && Clean(comps[0])
    ensures Join(comps) != ""
  {
  }

  // ---- the sandbox -----------------------------------------------------------------------------------------------

  /** Host directories are lists of components. */
  datatype Sandbox = Sandbox(iosPrefix: string, bundleName: string, hostRoot: seq<string>, systemRoot: seq<string>)

  const READ_ONLY: seq<string> := ["/System", "/usr", "/Library", "/private/var/db", "/Applications"]

  /** Rust's `char::is_whitespace`. */
  predicate IsSpace(c: char) {
    var n := c as int;
    || 0x9 <= n <= 0xD || n == 0x20 || n == 0x85 || n == 0xA0 || n == 0x1680 || 0x2000 <= n <= 0x200A
    || n == 0x2028 || n == 0x2029 || n == 0x202F || n == 0x205F || n == 0x3000
  }

  function Trim(s: string): string
    decreases |s|
  {
    if s != "" && IsSpace(s[0]) then Trim(s[1..])
    else if s != "" && IsSpace(s[|s| - 1]) then Trim(s[..|s| - 1])
    else s
  }

  /** `strip_prefix_dir`. */
  function StripPrefixDir(path: string, prefix: string): (r: Option<string>) {
    if !(|prefix| <= |path| && path[..|prefix|] == prefix) then None
    else if |path| == |prefix| then Some("")
    else if path[|prefix|] == '/' then Some(path[|prefix| + 1..])
    else None
  }

  /** A prefix matches whole components only. */
  lemma {:induction false} StripPrefixIff(path: string, prefix: string, rest: string)
    ensures StripPrefixDir(path, prefix) == Some(rest)
            <==> (path == prefix && rest == "") || path == prefix + "/" + rest
  {
    if path == prefix + "/" + rest {
      assert path[|prefix| + 1..] == rest && path[..|prefix|] == prefix;
    }
    if StripPrefixDir(path, prefix) == Some(rest) && path != prefix {
      assert path == path[..|prefix|] + [path[|prefix|]] + path[|prefix| + 1..];
    }
  }

  function Absolute(sb: Sandbox, path: string): string {
    if path != "" && path[0] == '/' then path else sb.iosPrefix + "/" + sb.bundleName + "/" + path
  }

  /** The host directory behind a read-only prefix. */
  function SystemBase(sb: Sandbox, i: nat): seq<string>
    requires i < |READ_ONLY|
  {
    sb.systemRoot + Split(READ_ONLY[i][1..])
  }

  /** The first read-only prefix, from number `i` on, that the path lies under. */
  function FirstReadOnly(path: string, i: nat): (r: Option<(nat, string)>)
    ensures r.Some? ==> i <= r.value.0 < |READ_ONLY|
                        && StripPrefixDir(path, READ_ONLY[r.value.0]) == Some(r.value.1)
                        && forall j :: i <= j < r.value.0 ==> StripPrefixDir(path, READ_ONLY[j]) == None
    ensures r.None? ==> forall j :: i <= j < |READ_ONLY| ==> StripPrefixDir(path, READ_ONLY[j]) == None
    decreases |READ_ONLY| - i
  {
    if i >= |READ_ONLY| then None
    else match StripPrefixDir(path, READ_ONLY[i])
      case Some(rest) => Some((i, rest))
      case None => FirstReadOnly(path, i + 1)
  }

  /** `join_checked`: pushes the components one by one. */
  method JoinChecked(base: seq<string>, rest: string) returns (r: Result<seq<string>, PathError>)
    ensures match Normalize(rest)
            case Ok(comps) => r == Ok(base + comps)
            case Err(e) => r == Err(e)
  {
    var comps := NormalizeIosPath(rest);
    if comps.Err? { return Err(comps.error); }
    var host := base;
    for i := 0 to |comps.value|
      invariant host == base + comps.value[..i]
    {
      assert comps.value[..i + 1] == comps.value[..i] + [comps.value[i]];
      host := host + [comps.value[i]];
    }
    assert comps.value[..|comps.value|] == comps.value;
    r := Ok(host);
  }

  /** Where the routing sends a path: a host base, what is left of the path, and whether the place
      is read-only. */
  function Route(sb: Sandbox, iosPath: string): (r: Option<(seq<string>, string, bool)>) {
    var path := Absolute(sb, Trim(iosPath));
    match StripPrefixDir(path, sb.iosPrefix)
    case Some(rest) => Some((sb.hostRoot, rest, false))
    case None =>
      match FirstReadOnly(path, 0)
      case Some(m) => Some((SystemBase(sb, m.0), m.1, true))
      case None => None
  }

  /** Paths that translate: there is a route, something is left after the prefix, no NUL is in it and it
      never climbs above its base. */
  ghost predicate Translates(sb: Sandbox, iosPath: string) {
    Route(sb, iosPath).Some?
    && var rest := Route(sb, iosPath).value.1;
       rest != "" && NulFree(Split(rest)) && !Climbs(Split(rest), 0)
  }

  /** A path that is its prefix, with or without a final slash, does not translate: here a read-only
      prefix, beside a path below it, which does. */
  lemma {:induction false} BarePrefixIsRefused(sb: Sandbox)
    requires StripPrefixDir("/usr", sb.iosPrefix) == None && StripPrefixDir("/usr/", sb.iosPrefix) == None
    requires StripPrefixDir("/usr/lib", sb.iosPrefix) == None
    ensures !Translates(sb, "/usr") && !Translates(sb, "/usr/") && Translates(sb, "/usr/lib")
  {
    hide Split, NulFree, Climbs, StripPrefixDir, SystemBase;
    UsrRoute("");
    UsrRoute("/");
    UsrRoute("/lib");
    assert "/usr" + "" == "/usr" && "/usr" + "/" == "/usr/" && "/usr" + "/lib" == "/usr/lib";
    assert READ_ONLY[0] == "/System" && READ_ONLY[1] == "/usr";
    UsrLib();
  }

  lemma {:induction false} UsrRoute(tail: string)
    requires tail == "" || tail == "/" || tail == "/lib"
    ensures var path := "/usr" + tail;
            && Trim(path) == path && path[0] == '/'
            && StripPrefixDir(path, "/System") == None
            && StripPrefixDir(path, "/usr") == Some(if tail == "/lib" then "lib" else "")
  {
    var path := "/usr" + tail;
    assert path[|path| - 1] == if tail == "" then 'r' else if tail == "/" then '/' else 'b';
    StripPrefixIff(path, "/usr", if tail == "/lib" then "lib" else "");
    assert "/usr" + "/" + "" == "/usr" + "/" && "/usr" + "/" + "lib" == "/usr" + "/lib";
    assert path[1] == 'u' && "/System"[1] == 'S';
  }

  lemma UsrLib()
    ensures NulFree(Split("lib")) && !Climbs(Split("lib"), 0)
  {
    var s := "lib";
    assert FindChar(s, '/') == 3;
    assert Split(s) == ["lib"];
    WalkFailsIff(["lib"], []);
    assert ["lib"][1..] == [];
    assert !HasNul("lib");
    assert Walk(["lib"], []) == Ok([] + ["lib"]);
  }

  /** `translate`: the path is contained. What is returned is the base the routing chose followed by
      clean components, the survivors of the rest of the path; and it is returned exactly when there
      is a route, the rest is not empty, no NUL is in it and it never climbs above its base. So a
      prefix alone, with or without a final slash, is refused. */
  method Translate(sb: Sandbox, iosPath: string) returns (r: Result<(seq<string>, bool), PathError>)
    ensures r.Ok? <==> Translates(sb, iosPath)
    ensures r.Ok? ==> var (base, rest, ro) := Route(sb, iosPath).value;
                      && r.value == (base + Survivors(Split(rest)), ro)
                      && forall k :: |base| <= k < |r.value.0| ==> Clean(r.value.0[k])
  {
    hide Split, Climbs, NulFree, Survivors, Walk, Trim;
    var path := Absolute(sb, Trim(iosPath));
    var rest := StripPrefixDir(path, sb.iosPrefix);
    if rest.Some? {
      Contained(sb.hostRoot, rest.value);
      var host := JoinChecked(sb.hostRoot, rest.value);
      if host.Err? { return Err(host.error); }
      return Ok((host.value, false));
    }
    for i := 0 to |READ_ONLY|
      invariant FirstReadOnly(path, i) == FirstReadOnly(path, 0)
    {
      var left := StripPrefixDir(path, READ_ONLY[i]);
      if left.Some? {
        Contained(SystemBase(sb, i), left.value);
        var host := JoinChecked(SystemBase(sb, i), left.value);
        if host.Err? { return Err(host.error); }
        return Ok((host.value, true));
      }
    }
    r := Err(OutsideSandbox);
  }

  lemma {:induction false} Contained(base: seq<string>, rest: string)
    ensures Normalize(rest).Ok? <==> rest != "" && NulFree(Split(rest)) && !Climbs(Split(rest), 0)
    ensures Normalize(rest).Ok? ==>
              && Normalize(rest).value == Survivors(Split(rest))
              && forall k :: |base| <= k < |base + Survivors(Split(rest))| ==>
                   Clean((base + Survivors(Split(rest)))[k])
  {
    hide Split, Climbs, NulFree, Survivors, Walk;
    WalkFailsIff(Split(rest), []);
    if Normalize(rest).Ok? {
      NormalizeKeepsSurvivors(rest);
      NormalizeIsFixed(rest);
    }
  }

  // ---- routing -------------------------------------------------------------------------------------------------------

  /** The path is the prefix, or goes on below it with `rest`. */
  predicate Under(path: string, prefix: string, rest: string) {
    (path == prefix && rest == "") || path == prefix + "/" + rest
  }

  const TREES: seq<string> := ["/System", "/usr", "/Library", "/private/var/db", "/Applications"]
  const FOLDERS: seq<seq<string>> := [["System"], ["usr"], ["Library"], ["private", "var", "db"], ["Applications"]]

  lemma {:induction false} SystemBaseIs(sb: Sandbox, i: nat)
    requires i < 5
    ensures READ_ONLY == TREES && SystemBase(sb, i) == sb.systemRoot + FOLDERS[i]
  {
    hide Split;
    var s := READ_ONLY[i][1..];
    if i == 3 {
      assert s == "private/var/db";
      assert ["private", "var", "db"][1..] == ["var", "db"] && ["var", "db"][1..] == ["db"];
      assert Join(["var", "db"]) == "var" + "/" + "db";
      assert Join(["private", "var", "db"]) == "private" + "/" + ("var" + "/" + "db");
      assert "private" + "/" + ("var" + "/" + "db") == s;
      SplitJoin(["private", "var", "db"]);
    } else {
      assert Join(FOLDERS[i]) == FOLDERS[i][0] && s == FOLDERS[i][0];
      SplitJoin(FOLDERS[i]);
    }
  }

  /** A relative path is one below the bundle, in the container. An absolute one is routed to the container if it is at
      or below its prefix, else to the first shared tree it is at or below, read-only, and nowhere otherwise. */
  lemma {:induction false} RouteIs(sb: Sandbox, iosPath: string, path: string, i: nat, rest: string)
    requires path == Trim(iosPath)
    ensures path == "" || path[0] != '/' ==> Route(sb, iosPath) == Some((sb.hostRoot, sb.bundleName + "/" + path, false))
    ensures path != "" && path[0] == '/' && Under(path, sb.iosPrefix, rest) ==>
              Route(sb, iosPath) == Some((sb.hostRoot, rest, false))
    ensures path != "" && path[0] == '/' && (forall r :: !Under(path, sb.iosPrefix, r)) ==>
              && (i < 5 && Under(path, TREES[i], rest) && (forall j, r :: 0 <= j < i ==> !Under(path, TREES[j], r)) ==>
                    Route(sb, iosPath) == Some((sb.systemRoot + FOLDERS[i], rest, true)))
              && ((forall j, r :: 0 <= j < 5 ==> !Under(path, TREES[j], r)) ==> Route(sb, iosPath) == None)
  {
    hide Trim, StripPrefixDir, SystemBase, Under;
    if path == "" || path[0] != '/' {
      Relative(sb, path);
    } else {
      PrefixIff(path, sb.iosPrefix, rest);
      assert READ_ONLY == TREES;
      if forall r :: !Under(path, sb.iosPrefix, r) {
        var m := FirstReadOnly(path, 0);
        if m.Some? {
          PrefixIff(path, TREES[m.value.0], m.value.1);
          SystemBaseIs(sb, m.value.0);
        }
        if i < 5 && Under(path, TREES[i], rest) {
          PrefixIff(path, TREES[i], rest);
          assert m.Some? && m.value.0 <= i;
        }
      }
    }
  }

  lemma {:induction false} PrefixIff(path: string, prefix: string, rest: string)
    ensures StripPrefixDir(path, prefix) == Some(rest) <==> Under(path, prefix, rest)
    ensures (forall r :: !Under(path, prefix, r)) ==> StripPrefixDir(path, prefix) == None
  {
    StripPrefixIff(path, prefix, rest);
    if StripPrefixDir(path, prefix).Some? {
      StripPrefixIff(path, prefix, StripPrefixDir(path, prefix).value);
      assert Under(path, prefix, StripPrefixDir(path, prefix).value);
    }
  }

  lemma {:induction false} Relative(sb: Sandbox, path: string)
    requires path == "" || path[0] != '/'
    ensures StripPrefixDir(Absolute(sb, path), sb.iosPrefix) == Some(sb.bundleName + "/" + path)
  {
    var full, rest := Absolute(sb, path), sb.bundleName + "/" + path;
    assert full == sb.iosPrefix + "/" + rest;
    StripPrefixIff(full, sb.iosPrefix, rest);
  }

  /** Blanks around a path do not matter. */
  lemma {:induction false} TrimIs(before: string, path: string, after: string)
    requires forall k :: 0 <= k < |before| ==> IsSpace(before[k])
    requires forall k :: 0 <= k < |after| ==> IsSpace(after[k])
    requires path != "" ==> !IsSpace(path[0]) && !IsSpace(path[|path| - 1])
    ensures Trim(before + path + after) == path
    decreases |before| + |after|
  {
    hide IsSpace;
    var s := before + path + after;
    if before != "" {
      assert s[0] == before[0] && s[1..] == before[1..] + path + after;
      TrimIs(before[1..], path, after);
    } else if after != "" {
      assert s[|s| - 1] == after[|after| - 1] && s[..|s| - 1] == before + path + after[..|after| - 1];
      if path == "" {
        assert s[0] == after[0] && s[1..] == before + path + after[1..];
        TrimIs(before, path, after[1..]);
      } else {
        assert s[0] == path[0];
        TrimIs(before, path, after[..|after| - 1]);
      }
    } else {
      assert s == path;
    }
  }
}
