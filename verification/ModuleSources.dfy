/** Module source addresses and relative resolution: `internal/addrs/module_source.go` and
    `internal/addrs/module_source_resolve.go`.

    Paths are texts, cleaned the way Go's `path` package does it: split at the slashes and folded over
    a stack. The laws are proved against an algebraic normal form, the number of leading ".." steps and
    the segments after them, whose composition is associative.
 */
module ModuleSources {
  import opened Addrs

  // ---------------------------------------------------------------- texts and segments

  function Split(s: string): (segs: seq<string>)
    ensures |segs| > 0
  {
    if s == "" then [""] else Onto(s[0], Split(s[1..]))
  }

  function Slashed(segs: seq<string>): string
    requires |segs| > 0
  {
    if |segs| == 1 then segs[0] else segs[0] + "/" + Slashed(segs[1..])
  }

  /** How the first character of a text enters its split. */
  function Onto(c: char, rest: seq<string>): seq<string>
    requires |rest| > 0
  {
    if c == '/' then [""] + rest else [[c] + rest[0]] + rest[1..]
  }

  lemma OntoConcat(c: char, x: seq<string>, y: seq<string>)
    requires |x| > 0
    ensures Onto(c, x + y) == Onto(c, x) + y
  {
    assert (x + y)[1..] == x[1..] + y;
  }

  lemma {:induction false} SplitJoined(a: string, b: string)
    ensures Split(a + "/" + b) == Split(a) + Split(b)
  {
    var s := a + "/" + b;
    if a == "" {
      assert s[1..] == b;
    } else {
      assert s[1..] == a[1..] + "/" + b;
      SplitJoined(a[1..], b);
      OntoConcat(a[0], Split(a[1..]), Split(b));
    }
  }

  predicate SlashFree(s: string) {
    forall i | 0 <= i < |s| :: s[i] != '/'
  }

  lemma {:induction false} SplitSlashFree(s: string)
    requires SlashFree(s)
    ensures Split(s) == [s]
  {
    if s != "" {
      SplitSlashFree(s[1..]);
      assert [s[0]] + s[1..] == s;
    }
  }

  lemma {:induction false} SplitSlashed(segs: seq<string>)
    requires |segs| > 0 && forall i | 0 <= i < |segs| :: SlashFree(segs[i])
    ensures Split(Slashed(segs)) == segs
  {
    SplitSlashFree(segs[0]);
    if |segs| > 1 {
      SplitSlashed(segs[1..]);
      SplitJoined(segs[0], Slashed(segs[1..]));
      assert segs == [segs[0]] + segs[1..];
    }
  }

  // ---------------------------------------------------------------- normal forms

  /** A relative path: `ups` steps to the parent, then down along `segs`. */
  datatype Normal = Normal(ups: nat, segs: seq<string>)

  const HERE := Normal(0, [])

  /** One turn of path cleaning: the stack absorbs a segment. */
  function Push(n: Normal, seg: string): Normal {
    if seg == "" || seg == "." then n
    else if seg == ".." then
      (if n.segs == [] then n.(ups := n.ups + 1) else n.(segs := n.segs[..|n.segs| - 1]))
    else n.(segs := n.segs + [seg])
  }

  function Fold(segs: seq<string>): Normal {
    if segs == [] then HERE else Push(Fold(segs[..|segs| - 1]), segs[|segs| - 1])
  }

  function NormalOf(s: string): Normal {
    Fold(Split(s))
  }

  function Compose(a: Normal, b: Normal): Normal {
    if b.ups <= |a.segs| then Normal(a.ups, a.segs[..|a.segs| - b.ups] + b.segs)
    else Normal(a.ups + b.ups - |a.segs|, b.segs)
  }

  lemma ComposeAssociative(a: Normal, b: Normal, c: Normal)
    ensures Compose(Compose(a, b), c) == Compose(a, Compose(b, c))
  {
    var ab, bc := Compose(a, b), Compose(b, c);
    if b.ups <= |a.segs| && c.ups <= |b.segs| {
      assert ab.segs[..|ab.segs| - c.ups] == a.segs[..|a.segs| - b.ups] + b.segs[..|b.segs| - c.ups];
    } else if b.ups <= |a.segs| {
      if bc.ups <= |a.segs| {
        assert ab.segs[..|ab.segs| - c.ups] == a.segs[..|a.segs| - bc.ups];
      }
    }
  }

  /** Going on from a path never takes back a step out of its starting point. */
  lemma ComposeEscapes(a: Normal, b: Normal)
    ensures a.ups <= Compose(a, b).ups
  {
  }

  lemma PushComposed(a: Normal, b: Normal, seg: string)
    ensures Push(Compose(a, b), seg) == Compose(a, Push(b, seg))
  {
    var ab := Compose(a, b);
    if seg == "" || seg == "." {
    } else if seg == ".." {
      if b.segs != [] {
        assert b.ups <= |a.segs| ==> ab.segs[..|ab.segs| - 1] == a.segs[..|a.segs| - b.ups] + b.segs[..|b.segs| - 1];
      } else if b.ups < |a.segs| {
        assert ab.segs == a.segs[..|a.segs| - b.ups];
        assert ab.segs[..|ab.segs| - 1] == a.segs[..|a.segs| - b.ups - 1] + [];
      } else if b.ups == |a.segs| {
        assert ab == Normal(a.ups, []);
      }
    } else if b.ups <= |a.segs| {
      assert ab.segs + [seg] == a.segs[..|a.segs| - b.ups] + (b.segs + [seg]);
    }
  }

  /** Cleaning is a homomorphism: the normal form of a joined path is composed from the parts'. */
  lemma {:induction false} FoldConcat(x: seq<string>, y: seq<string>)
    ensures Fold(x + y) == Compose(Fold(x), Fold(y))
  {
    if y == [] {
      assert x + y == x;
      assert Fold(x).segs[..|Fold(x).segs|] + [] == Fold(x).segs;
    } else {
      var init, last := y[..|y| - 1], y[|y| - 1];
      assert (x + y)[..|x + y| - 1] == x + init;
      FoldConcat(x, init);
      PushComposed(Fold(x), Fold(init), last);
    }
  }

  lemma NormalOfJoined(a: string, b: string)
    ensures NormalOf(a + "/" + b) == Compose(NormalOf(a), NormalOf(b))
  {
    SplitJoined(a, b);
    FoldConcat(Split(a), Split(b));
  }

  // ---------------------------------------------------------------- cleaned paths

  function Parents(n: nat): seq<string> {
    seq(n, _ => "..")
  }

  /** The cleaned text of a relative path. */
  function Render(n: Normal): string {
    if n == HERE then "." else Slashed(Parents(n.ups) + n.segs)
  }

  /** Go's `path.Clean`. A rooted path drops the steps that would leave the root. */
  function Clean(s: string): string {
    if s == "" then "."
    else if s[0] == '/' then
      (if NormalOf(s).segs == [] then "/" else "/" + Slashed(NormalOf(s).segs))
    else Render(NormalOf(s))
  }

  /** Go's `path.Join` of two elements, which ignores empty ones at the front. */
  function Join(a: string, b: string): string {
    if a == "" && b == "" then "" else if a == "" then Clean(b) else Clean(a + "/" + b)
  }

  /** A path segment that cleaning leaves alone. */
  predicate PlainSegment(seg: string) {
    seg != "" && seg != "." && seg != ".." && SlashFree(seg)
  }

  predicate PlainNormal(n: Normal) {
    forall i | 0 <= i < |n.segs| :: PlainSegment(n.segs[i])
  }

  lemma {:induction false} FoldParents(n: nat)
    ensures Fold(Parents(n)) == Normal(n, [])
  {
    if n > 0 {
      assert Parents(n)[..n - 1] == Parents(n - 1);
      FoldParents(n - 1);
    }
  }

  lemma {:induction false} FoldPlain(segs: seq<string>)
    requires forall i | 0 <= i < |segs| :: PlainSegment(segs[i])
    ensures Fold(segs) == Normal(0, segs)
  {
    if segs != [] {
      var init, last := segs[..|segs| - 1], segs[|segs| - 1];
      assert PlainSegment(last);
      assert forall i | 0 <= i < |init| :: init[i] == segs[i];
      FoldPlain(init);
      assert init + [last] == segs;
    }
  }

  lemma NormalOfRendered(n: Normal)
    requires PlainNormal(n)
    ensures NormalOf(Render(n)) == n
  {
    if n == HERE {
      SplitSlashFree(".");
      assert ["."][..0] == [];
    } else {
      SplitSlashed(Parents(n.ups) + n.segs);
      FoldConcat(Parents(n.ups), n.segs);
      FoldParents(n.ups);
      FoldPlain(n.segs);
    }
  }

  /** Every segment the fold keeps is one of the segments it was given. */
  lemma {:induction false} FoldKeeps(segs: seq<string>, seg: string)
    requires seg in Fold(segs).segs
    ensures seg in segs && seg != "" && seg != "." && seg != ".."
  {
    if segs != [] {
      var init := segs[..|segs| - 1];
      if seg in Fold(init).segs {
        FoldKeeps(init, seg);
      }
    }
  }

  lemma {:induction false} SplitIsSlashFree(s: string, i: nat)
    requires i < |Split(s)|
    ensures SlashFree(Split(s)[i])
    ensures forall c | c in Split(s)[i] :: c in s
    decreases |s|
  {
    if s != "" {
      var rest := Split(s[1..]);
      if s[0] == '/' {
        if i > 0 {
          SplitIsSlashFree(s[1..], i - 1);
          assert Split(s)[i] == rest[i - 1];
        }
      } else {
        SplitIsSlashFree(s[1..], i);
        assert Split(s)[i] == if i == 0 then [s[0]] + rest[0] else rest[i];
      }
    }
  }

  lemma NormalOfIsPlain(s: string)
    ensures PlainNormal(NormalOf(s))
    ensures forall i | 0 <= i < |NormalOf(s).segs| :: forall c | c in NormalOf(s).segs[i] :: c in s
  {
    var n := NormalOf(s);
    forall i | 0 <= i < |n.segs|
      ensures PlainSegment(n.segs[i]) && forall c | c in n.segs[i] :: c in s
    {
      FoldKeeps(Split(s), n.segs[i]);
      var j :| 0 <= j < |Split(s)| && Split(s)[j] == n.segs[i];
      SplitIsSlashFree(s, j);
    }
  }

  // ---------------------------------------------------------------- local sources

  datatype Source =
    | Local(path: string)
    | Registry(package: string, subdir: string)
    | Remote(package: string, subdir: string)

  predicate IsModuleSourceLocal(raw: string) {
    "./" <= raw || "../" <= raw || ".\\" <= raw || "..\\" <= raw
  }

  function ToSlash(raw: string): string {
    seq(|raw|, i requires 0 <= i < |raw| => if raw[i] == '\\' then '/' else raw[i])
  }

  function ParseModuleSourceLocal(raw: string): string {
    var clean := Clean(ToSlash(raw));
    if "../" <= clean then clean else "./" + clean
  }

  /** The text of a local source with the given normal form. */
  function LocalText(n: Normal): string {
    if "../" <= Render(n) then Render(n) else "./" + Render(n)
  }

  predicate BackslashFree(s: string) {
    forall i | 0 <= i < |s| :: s[i] != '\\'
  }

  /** The normal forms of local sources: no segment holds a backslash either. */
  predicate LocalNormal(n: Normal) {
    PlainNormal(n) && forall i | 0 <= i < |n.segs| :: BackslashFree(n.segs[i])
  }

  ghost predicate ValidLocal(path: string) {
    exists n :: LocalNormal(n) && path == LocalText(n)
  }

  lemma NormalOfLocal(n: Normal)
    requires PlainNormal(n)
    ensures NormalOf(LocalText(n)) == n
  {
    NormalOfRendered(n);
    NormalOfJoined(".", Render(n));
    SplitSlashFree(".");
    assert ["."][..0] == [];
    assert "." + "/" + Render(n) == "./" + Render(n);
    assert HERE.segs[..0] + n.segs == n.segs;
  }

  /** Every accepted local source is in normal form. */
  lemma ParsedLocalIsValid(raw: string)
    requires IsModuleSourceLocal(raw)
    ensures LocalNormal(NormalOf(ToSlash(raw)))
    ensures ParseModuleSourceLocal(raw) == LocalText(NormalOf(ToSlash(raw)))
  {
    var s := ToSlash(raw);
    assert raw[0] == '.';
    assert s[0] == '.';
    NormalOfIsPlain(s);
    forall i | 0 <= i < |NormalOf(s).segs| ensures BackslashFree(NormalOf(s).segs[i]) {
      forall j | 0 <= j < |NormalOf(s).segs[i]| ensures NormalOf(s).segs[i][j] != '\\' {
        assert NormalOf(s).segs[i][j] in s;
      }
    }
  }

  lemma {:induction false} SlashedBackslashFree(segs: seq<string>)
    requires |segs| > 0 && forall i | 0 <= i < |segs| :: BackslashFree(segs[i])
    ensures BackslashFree(Slashed(segs))
  {
    if |segs| > 1 {
      SlashedBackslashFree(segs[1..]);
    }
  }

  lemma LocalTextBackslashFree(n: Normal)
    requires LocalNormal(n)
    ensures BackslashFree(Render(n)) && BackslashFree(LocalText(n))
  {
    if n != HERE {
      SlashedBackslashFree(Parents(n.ups) + n.segs);
    }
  }

  lemma LocalTextHasPrefix(n: Normal)
    ensures IsModuleSourceLocal(LocalText(n)) && LocalText(n)[0] == '.'
  {
    if "../" <= Render(n) {
      assert "../"[0] == Render(n)[0];
    }
  }

  /** Parsing a normalised local source changes nothing. */
  lemma ParseLocalIdempotent(raw: string)
    requires IsModuleSourceLocal(raw)
    ensures ParseModuleSourceLocal(ParseModuleSourceLocal(raw)) == ParseModuleSourceLocal(raw)
  {
    ParsedLocalIsValid(raw);
    var n := NormalOf(ToSlash(raw));
    LocalTextBackslashFree(n);
    LocalTextHasPrefix(n);
    assert ToSlash(LocalText(n)) == LocalText(n);
    NormalOfLocal(n);
  }

  /** Splitting off a leading "./" gives a first segment ".". */
  lemma DotSlashSplits(s: string)
    ensures "./" <= s ==> Split(s)[0] == "."
  {
    if "./" <= s {
      assert s == "." + "/" + s[2..];
      SplitJoined(".", s[2..]);
      SplitSlashFree(".");
    }
  }

  /** The first segment of a cleaned path is never ".", unless that is all there is. */
  lemma RenderedFront(n: Normal)
    requires PlainNormal(n) && n != HERE
    ensures Split(Render(n)) == Parents(n.ups) + n.segs
    ensures Split(Render(n))[0] != "." && (Split(Render(n))[0] == ".." <==> n.ups > 0)
  {
    var segs := Parents(n.ups) + n.segs;
    SplitSlashed(segs);
    assert segs[0] == if n.ups > 0 then ".." else n.segs[0];
  }

  /** A cleaned path counts as local exactly when it climbs and goes on. */
  lemma CleanedIsLocal(n: Normal)
    requires LocalNormal(n)
    ensures IsModuleSourceLocal(Render(n)) <==> "../" <= Render(n)
  {
    LocalTextBackslashFree(n);
    DotSlashSplits(Render(n));
    if n != HERE {
      RenderedFront(n);
    }
  }

  // ---------------------------------------------------------------- subdirectories of packages

  /** Go's `fs.ValidPath`. */
  predicate ValidPath(name: string) {
    name == "." ||
    forall i | 0 <= i < |Split(name)| :: Split(name)[i] != "" && Split(name)[i] != "." && Split(name)[i] != ".."
  }

  predicate ValidSubdir(subdir: string) {
    subdir == "" || ValidPath(subdir)
  }

  function JoinModuleSourceSubPath(subPath: string, rel: string): Option<string> {
    var new_ := Join(subPath, rel);
    if new_ == "." then Some("")
    else if !ValidPath(new_) then None
    else Some(new_)
  }

  /** The text of a subdirectory: nothing for the package root. */
  function SubdirText(segs: seq<string>): string {
    if segs == [] then "" else Slashed(segs)
  }

  lemma RenderedIsValidPath(n: Normal)
    requires PlainNormal(n) && n != HERE
    ensures Render(n) != "."
    ensures ValidPath(Render(n)) <==> n.ups == 0
  {
    RenderedFront(n);
    SplitSlashFree(".");
    if n.ups == 0 {
      assert Split(Render(n)) == n.segs;
    }
  }

  lemma SubdirIsPlain(subdir: string)
    requires ValidSubdir(subdir)
    ensures NormalOf(subdir).ups == 0 && PlainNormal(NormalOf(subdir))
    ensures subdir != "" ==> subdir[0] != '/'
  {
    NormalOfIsPlain(subdir);
    if subdir == "" || subdir == "." {
      SplitSlashFree(subdir);
      assert [subdir][..0] == [];
    } else {
      forall i | 0 <= i < |Split(subdir)| ensures PlainSegment(Split(subdir)[i]) {
        SplitIsSlashFree(subdir, i);
      }
      FoldPlain(Split(subdir));
      assert PlainSegment(Split(subdir)[0]);
    }
  }

  // ---------------------------------------------------------------- resolution

  function ResolveRelativeModuleSource(a: Source, b: Source): Option<Source> {
    if !b.Local? then Some(b) else
    match a
    case Local(aRaw) =>
      var new_ := Join(aRaw, b.path);
      Some(Local(if IsModuleSourceLocal(new_) then new_ else "./" + new_))
    case Registry(package, subdir) =>
      (match JoinModuleSourceSubPath(subdir, b.path)
       case None => None
       case Some(newSub) => Some(Registry(package, newSub)))
    case Remote(package, subdir) =>
      match JoinModuleSourceSubPath(subdir, b.path)
      case None => None
      case Some(newSub) => Some(Remote(package, newSub))
  }

  ghost predicate ValidSource(a: Source) {
    if a.Local? then ValidLocal(a.path) else ValidSubdir(a.subdir)
  }

  /** Joining onto a relative path composes normal forms. */
  lemma JoinComposes(a: string, n: Normal)
    requires (a != "" ==> a[0] != '/') && PlainNormal(n) && PlainNormal(NormalOf(a))
    ensures PlainNormal(Compose(NormalOf(a), n))
    ensures Join(a, LocalText(n)) == Render(Compose(NormalOf(a), n))
  {
    LocalTextHasPrefix(n);
    NormalOfLocal(n);
    if a == "" {
      SplitSlashFree("");
      assert [""][..0] == [];
      assert HERE.segs[..0] + n.segs == n.segs;
    } else {
      NormalOfJoined(a, LocalText(n));
    }
  }

  lemma ComposeKeepsLocal(a: Normal, b: Normal)
    requires LocalNormal(a) && LocalNormal(b)
    ensures LocalNormal(Compose(a, b))
  {
  }

  /** Resolving one local source against another composes them and never fails. */
  lemma ResolveLocal(m: Normal, n: Normal)
    requires LocalNormal(m) && LocalNormal(n)
    ensures LocalNormal(Compose(m, n))
    ensures ResolveRelativeModuleSource(Local(LocalText(m)), Local(LocalText(n))) ==
            Some(Local(LocalText(Compose(m, n))))
  {
    LocalTextHasPrefix(m);
    NormalOfLocal(m);
    JoinComposes(LocalText(m), n);
    ComposeKeepsLocal(m, n);
    CleanedIsLocal(Compose(m, n));
  }

  /** Joining a relative path to a subdirectory stays inside the package or is rejected. */
  lemma ResolveSubdir(subdir: string, n: Normal)
    requires ValidSubdir(subdir) && LocalNormal(n)
    ensures var c := Compose(NormalOf(subdir), n);
            && PlainNormal(c)
            && JoinModuleSourceSubPath(subdir, LocalText(n)) == if c.ups == 0 then Some(SubdirText(c.segs)) else None
  {
    SubdirIsPlain(subdir);
    JoinComposes(subdir, n);
    var c := Compose(NormalOf(subdir), n);
    if c != HERE {
      RenderedIsValidPath(c);
      if c.ups == 0 {
        assert Parents(0) + c.segs == c.segs;
      }
    }
  }

  lemma SubdirTextIsValid(segs: seq<string>)
    requires forall i | 0 <= i < |segs| :: PlainSegment(segs[i])
    ensures ValidSubdir(SubdirText(segs)) && NormalOf(SubdirText(segs)) == Normal(0, segs)
  {
    if segs == [] {
      SplitSlashFree("");
      assert [""][..0] == [];
    } else {
      SplitSlashed(segs);
      FoldPlain(segs);
    }
  }

  /** Whatever is resolved is a valid source again: a subdirectory is empty or lies inside the package. */
  lemma ResolveKeepsValid(a: Source, b: Source)
    requires ValidSource(a) && ValidSource(b)
    ensures ResolveRelativeModuleSource(a, b).Some? ==> ValidSource(ResolveRelativeModuleSource(a, b).value)
  {
    if b.Local? {
      var n :| LocalNormal(n) && b.path == LocalText(n);
      if a.Local? {
        var m :| LocalNormal(m) && a.path == LocalText(m);
        ResolveLocal(m, n);
      } else {
        ResolveSubdir(a.subdir, n);
        var c := Compose(NormalOf(a.subdir), n);
        SubdirTextIsValid(c.segs);
      }
    }
  }

  function Then(a: Option<Source>, b: Source): Option<Source> {
    match a
    case None => None
    case Some(s) => ResolveRelativeModuleSource(s, b)
  }

  function After(a: Source, b: Option<Source>): Option<Source> {
    match b
    case None => None
    case Some(s) => ResolveRelativeModuleSource(a, s)
  }

  lemma SubdirAssociative(subdir: string, n: Normal, k: Normal)
    requires ValidSubdir(subdir) && LocalNormal(n) && LocalNormal(k)
    ensures LocalNormal(Compose(n, k))
    ensures (match JoinModuleSourceSubPath(subdir, LocalText(n))
             case None => None
             case Some(sub) => JoinModuleSourceSubPath(sub, LocalText(k))) ==
            JoinModuleSourceSubPath(subdir, LocalText(Compose(n, k)))
  {
    var s := NormalOf(subdir);
    ComposeKeepsLocal(n, k);
    ResolveSubdir(subdir, n);
    ResolveSubdir(subdir, Compose(n, k));
    ComposeAssociative(s, n, k);
    ComposeEscapes(Compose(s, n), k);
    var c := Compose(s, n);
    if c.ups == 0 {
      SubdirTextIsValid(c.segs);
      ResolveSubdir(SubdirText(c.segs), k);
    }
  }

  /** Resolution is associative, rejection included: following `b` and then `c` from `a` is the same as
      following the relative path from `a` that `b` and `c` make up. */
  lemma ResolveAssociative(a: Source, b: Source, c: Source)
    requires ValidSource(a) && ValidSource(b) && ValidSource(c) && c.Local?
    ensures Then(ResolveRelativeModuleSource(a, b), c) == After(a, ResolveRelativeModuleSource(b, c))
  {
    if b.Local? {
      var n :| LocalNormal(n) && b.path == LocalText(n);
      var k :| LocalNormal(k) && c.path == LocalText(k);
      ResolveLocal(n, k);
      if a.Local? {
        var m :| LocalNormal(m) && a.path == LocalText(m);
        ResolveLocal(m, n);
        ResolveLocal(Compose(m, n), k);
        ResolveLocal(m, Compose(n, k));
        ComposeAssociative(m, n, k);
      } else {
        SubdirAssociative(a.subdir, n, k);
      }
    }
  }

  /** A hop is rejected exactly when its path climbs above the package root. */
  lemma RejectedExactlyWhenEscaping(a: Source, n: Normal)
    requires ValidSource(a) && LocalNormal(n)
    ensures ResolveRelativeModuleSource(a, Local(LocalText(n))).None? <==>
            !a.Local? && n.ups > |NormalOf(a.subdir).segs|
  {
    if a.Local? {
      var m :| LocalNormal(m) && a.path == LocalText(m);
      ResolveLocal(m, n);
    } else {
      ResolveSubdir(a.subdir, n);
      SubdirIsPlain(a.subdir);
    }
  }

  /** The hop from `a` along `b` climbs above the root of `a`'s package. */
  predicate Escapes(a: Source, b: Source) {
    !a.Local? && b.Local? && NormalOf(b.path).ups > |NormalOf(a.subdir).segs|
  }

  /** An absolute last source hides where it was reached from, so with one the law holds exactly when the first
      hop is accepted: between valid sources, when it does not climb above the package root. */
  lemma ResolveAbsoluteLast(a: Source, b: Source, c: Source)
    requires !c.Local?
    ensures Then(ResolveRelativeModuleSource(a, b), c) == After(a, ResolveRelativeModuleSource(b, c)) <==>
            ResolveRelativeModuleSource(a, b).Some?
    ensures ValidSource(a) && ValidSource(b) ==>
              (Then(ResolveRelativeModuleSource(a, b), c) == After(a, ResolveRelativeModuleSource(b, c)) <==>
                !Escapes(a, b))
  {
    if ValidSource(a) && ValidSource(b) && b.Local? {
      var n :| LocalNormal(n) && b.path == LocalText(n);
      NormalOfLocal(n);
      RejectedExactlyWhenEscaping(a, n);
    }
  }

  /** From the root of a package, `../x` is rejected although the absolute source after it would be accepted. */
  lemma AbsoluteLastFails(c: Source)
    requires !c.Local?
    ensures var a, b := Remote("pkg", ""), Local("../x");
            && ValidSource(a) && ValidSource(b)
            && Then(ResolveRelativeModuleSource(a, b), c) == None
            && After(a, ResolveRelativeModuleSource(b, c)) == Some(c)
  {
    var n := Normal(1, ["x"]);
    assert Parents(0) == [];
    assert Parents(1) + ["x"] == ["..", "x"];
    assert ["..", "x"][1..] == ["x"];
    assert Render(n) == "../x";
    assert "../" <= Render(n);
    assert LocalNormal(n) && LocalText(n) == "../x";
    RejectedExactlyWhenEscaping(Remote("pkg", ""), n);
    SplitSlashFree("");
    assert [""][..0] == [];
  }

  // ---------------------------------------------------------------- resolution is walking

  /** Walks along the segments of a path from a directory; `None` if that would leave the root. */
  function Walk(dir: seq<string>, segs: seq<string>): Option<seq<string>>
    decreases |segs|
  {
    if segs == [] then Some(dir)
    else if segs[0] == "" || segs[0] == "." then Walk(dir, segs[1..])
    else if segs[0] == ".." then (if dir == [] then None else Walk(dir[..|dir| - 1], segs[1..]))
    else Walk(dir + [segs[0]], segs[1..])
  }

  function WalkOn(dir: Option<seq<string>>, segs: seq<string>): Option<seq<string>> {
    match dir case None => None case Some(d) => Walk(d, segs)
  }

  lemma {:induction false} WalkConcat(dir: seq<string>, x: seq<string>, y: seq<string>)
    ensures Walk(dir, x + y) == WalkOn(Walk(dir, x), y)
    decreases |x|
  {
    if x == [] {
      assert x + y == y;
    } else {
      assert (x + y)[1..] == x[1..] + y;
      if x[0] == "" || x[0] == "." {
        WalkConcat(dir, x[1..], y);
      } else if x[0] == ".." {
        if dir != [] {
          WalkConcat(dir[..|dir| - 1], x[1..], y);
        }
      } else {
        WalkConcat(dir + [x[0]], x[1..], y);
      }
    }
  }

  /** Where a path of the given normal form leads from a directory. */
  function Lead(dir: seq<string>, n: Normal): Option<seq<string>> {
    if n.ups <= |dir| then Some(dir[..|dir| - n.ups] + n.segs) else None
  }

  /** One step of a walk. */
  lemma WalkOne(dir: seq<string>, seg: string)
    ensures Walk(dir, [seg]) ==
            if seg == "" || seg == "." then Some(dir)
            else if seg != ".." then Some(dir + [seg])
            else if dir == [] then None else Some(dir[..|dir| - 1])
  {
    assert [seg][1..] == [];
  }

  lemma LeadPush(dir: seq<string>, n: Normal, seg: string)
    ensures Lead(dir, Push(n, seg)) == WalkOn(Lead(dir, n), [seg])
  {
    if n.ups <= |dir| {
      var d := dir[..|dir| - n.ups] + n.segs;
      assert Lead(dir, n) == Some(d);
      WalkOne(d, seg);
      if seg == ".." && n.segs != [] {
        assert d[..|d| - 1] == dir[..|dir| - n.ups] + n.segs[..|n.segs| - 1];
      } else if seg == ".." {
        assert d == dir[..|dir| - n.ups];
        assert n.ups < |dir| ==> d[..|d| - 1] == dir[..|dir| - n.ups - 1] + [];
      } else if seg != "" && seg != "." {
        assert d + [seg] == dir[..|dir| - n.ups] + (n.segs + [seg]);
      }
    }
  }

  /** The normal form of a path says where walking along it leads, and when it leaves the root. */
  lemma {:induction false} WalkIsNormal(dir: seq<string>, segs: seq<string>)
    ensures Walk(dir, segs) == Lead(dir, Fold(segs))
  {
    if segs == [] {
      assert dir[..|dir|] + [] == dir;
    } else {
      var init, last := segs[..|segs| - 1], segs[|segs| - 1];
      assert segs == init + [last];
      WalkConcat(dir, init, [last]);
      WalkIsNormal(dir, init);
      LeadPush(dir, Fold(init), last);
    }
  }

  /** The directory inside a package that a subdirectory text names. */
  function Directory(subdir: string): seq<string> {
    if subdir == "" || subdir == "." then [] else Split(subdir)
  }

  lemma DirectoryIsNormal(subdir: string)
    requires ValidSubdir(subdir)
    ensures NormalOf(subdir) == Normal(0, Directory(subdir))
  {
    if subdir == "" || subdir == "." {
      SplitSlashFree(subdir);
      assert [subdir][..0] == [];
      assert Fold([subdir]) == Push(Fold([]), subdir);
    } else {
      SubdirSegments(subdir);
      FoldPlain(Split(subdir));
    }
  }

  lemma SubdirSegments(subdir: string)
    requires ValidPath(subdir) && subdir != "."
    ensures forall i | 0 <= i < |Split(subdir)| :: PlainSegment(Split(subdir)[i])
  {
    forall i | 0 <= i < |Split(subdir)| ensures PlainSegment(Split(subdir)[i]) {
      SplitIsSlashFree(subdir, i);
    }
  }

  lemma WalkFromSubdir(subdir: string, n: Normal)
    requires ValidSubdir(subdir) && LocalNormal(n)
    ensures Walk(Directory(subdir), Split(LocalText(n))) ==
            if Compose(NormalOf(subdir), n).ups == 0 then Some(Compose(NormalOf(subdir), n).segs) else None
  {
    NormalOfLocal(n);
    DirectoryIsNormal(subdir);
    WalkIsNormal(Directory(subdir), Split(LocalText(n)));
  }

  /** Resolving a relative source inside a package is walking from the package's subdirectory: the source stays in its
      package, at the directory where the walk ends, and is rejected exactly if the walk leaves the package. */
  lemma ResolveIsWalking(a: Source, b: Source)
    requires ValidSource(a) && ValidSource(b) && !a.Local? && b.Local?
    ensures ResolveRelativeModuleSource(a, b) ==
            match Walk(Directory(a.subdir), Split(b.path))
            case None => None
            case Some(dir) => Some(a.(subdir := SubdirText(dir)))
  {
    var n :| LocalNormal(n) && b.path == LocalText(n);
    ResolveSubdir(a.subdir, n);
    WalkFromSubdir(a.subdir, n);
  }

  /** Resolving one relative source against another gives a relative source that leads, from every directory, where
      walking along the one and then the other leads. An absolute source stays what it is. */
  lemma ResolveLocalIsWalking(a: Source, b: Source, dir: seq<string>)
    requires ValidSource(a) && ValidSource(b)
    ensures !b.Local? ==> ResolveRelativeModuleSource(a, b) == Some(b)
    ensures a.Local? && b.Local? ==>
              var r := ResolveRelativeModuleSource(a, b);
              && r.Some? && r.value.Local? && ValidSource(r.value)
              && Walk(dir, Split(r.value.path)) == WalkOn(Walk(dir, Split(a.path)), Split(b.path))
  {
    if a.Local? && b.Local? {
      var m :| LocalNormal(m) && a.path == LocalText(m);
      var n :| LocalNormal(n) && b.path == LocalText(n);
      ResolveLocal(m, n);
      NormalOfLocal(m);
      NormalOfLocal(n);
      NormalOfLocal(Compose(m, n));
      WalkConcat(dir, Split(a.path), Split(b.path));
      FoldConcat(Split(a.path), Split(b.path));
      WalkIsNormal(dir, Split(a.path) + Split(b.path));
      WalkIsNormal(dir, Split(LocalText(Compose(m, n))));
    }
  }
}
