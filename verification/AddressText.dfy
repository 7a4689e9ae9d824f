/** The text of addresses, which the code uses as map keys and as an equality test.

    The printers follow `module_instance.go` and `resource.go`. Each is shown to write exactly the
    rendering of the address's own traversal steps, from which it follows that different addresses
    have different texts, whatever their string keys contain.
 */
module AddressText {
  import opened Addrs
  import opened Quoting
  import opened Traversals

  // ---------------------------------------------------------------- the steps of an address

  function KeyValue(key: InstanceKey): IndexValue
    requires key != NoKey
  {
    match key
    case IntKey(index) => NumberValue(index as real)
    case StringKey(text) => StringValue(text)
  }

  function KeySteps(key: InstanceKey): Traversal {
    if key == NoKey then [] else [Index(KeyValue(key))]
  }

  function ModuleSteps(m: ModuleInstance): Traversal {
    if m == [] then [] else
    [Attr("module"), Attr(m[0].name)] + KeySteps(m[0].key) + ModuleSteps(m[1..])
  }

  function ModeSteps(mode: ResourceMode): Traversal {
    match mode
    case Managed => []
    case Data => [Attr("data")]
    case Ephemeral => [Attr("ephemeral")]
  }

  function ResourceSteps(r: Resource): Traversal {
    ModeSteps(r.mode) + [Attr(r.typeName), Attr(r.name)]
  }

  function AbsResourceSteps(r: AbsResource): Traversal {
    ModuleSteps(r.path) + ResourceSteps(r.resource)
  }

  function AbsInstanceSteps(ri: AbsResourceInstance): Traversal {
    ModuleSteps(ri.path) + ResourceSteps(ri.local.resource) + KeySteps(ri.local.key)
  }

  // ---------------------------------------------------------------- printers

  function KeyText(key: InstanceKey, isPrint: char -> bool): string {
    match key
    case NoKey => ""
    case IntKey(index) => "[" + Decimal(index) + "]"
    case StringKey(text) => "[" + Quoted(text, isPrint) + "]"
  }

  function ResourceText(r: Resource): string {
    match r.mode
    case Managed => r.typeName + "." + r.name
    case Data => "data." + r.typeName + "." + r.name
    case Ephemeral => "ephemeral." + r.typeName + "." + r.name
  }

  function ResourceInstanceText(r: ResourceInstance, isPrint: char -> bool): string {
    if r.key == NoKey then ResourceText(r.resource) else ResourceText(r.resource) + KeyText(r.key, isPrint)
  }

  /** The text of a module instance: its steps without the dot before the first of them. */
  function ModuleText(m: ModuleInstance, isPrint: char -> bool): string {
    if m == [] then "" else Render(ModuleSteps(m), isPrint)[1..]
  }

  function AbsResourceText(r: AbsResource, isPrint: char -> bool): string {
    if |r.path| == 0 then ResourceText(r.resource)
    else ModuleText(r.path, isPrint) + "." + ResourceText(r.resource)
  }

  function AbsInstanceText(ri: AbsResourceInstance, isPrint: char -> bool): string {
    if |ri.path| == 0 then ResourceInstanceText(ri.local, isPrint)
    else ModuleText(ri.path, isPrint) + "." + ResourceInstanceText(ri.local, isPrint)
  }

  lemma {:induction false} ModuleStepsSplit(m: ModuleInstance, n: ModuleInstance)
    ensures ModuleSteps(m + n) == ModuleSteps(m) + ModuleSteps(n)
  {
    if m == [] {
      assert m + n == n;
    } else {
      assert (m + n)[1..] == m[1..] + n;
      ModuleStepsSplit(m[1..], n);
    }
  }

  /** One more module step adds one more dotted piece of text. */
  lemma ModuleTextGrows(m: ModuleInstance, step: ModuleInstanceStep, isPrint: char -> bool)
    ensures Render(ModuleSteps(m + [step]), isPrint) ==
            Render(ModuleSteps(m), isPrint) + ("." + ("module." + step.name + KeyText(step.key, isPrint)))
  {
    ModuleStepsSplit(m, [step]);
    RenderConcat(ModuleSteps(m), ModuleSteps([step]), isPrint);
    StepRendered(step, isPrint);
  }

  lemma StepRendered(step: ModuleInstanceStep, isPrint: char -> bool)
    ensures Render(ModuleSteps([step]), isPrint) == "." + ("module." + step.name + KeyText(step.key, isPrint))
  {
    var names := [Attr("module"), Attr(step.name)];
    assert ModuleSteps([step]) == names + KeySteps(step.key);
    RenderConcat(names, KeySteps(step.key), isPrint);
    RenderKey(step.key, isPrint);
    RenderNames("module", step.name, isPrint);
    KeywordDot("module", "module.", step.name, KeyText(step.key, isPrint));
  }

  lemma KeywordDot(keyword: string, dotted: string, a: string, b: string)
    requires dotted == keyword + "."
    ensures "." + keyword + "." + a + b == "." + (dotted + a + b)
  {
  }

  lemma RenderKey(key: InstanceKey, isPrint: char -> bool)
    ensures Render(KeySteps(key), isPrint) == KeyText(key, isPrint)
  {
    if key != NoKey {
      assert KeySteps(key)[1..] == [];
    }
  }

  lemma RenderOne(s: Step, isPrint: char -> bool)
    ensures Render([s], isPrint) == StepText(s, isPrint)
  {
    assert [s][1..] == [];
  }

  lemma RenderNames(a: string, b: string, isPrint: char -> bool)
    ensures Render([Attr(a), Attr(b)], isPrint) == "." + a + "." + b
  {
    RenderConcat([Attr(a)], [Attr(b)], isPrint);
    RenderOne(Attr(a), isPrint);
    RenderOne(Attr(b), isPrint);
    assert [Attr(a), Attr(b)] == [Attr(a)] + [Attr(b)];
    Regroup("." + a, ".", b);
  }

  /** The text that the printing loop has built after the given steps. */
  ghost function Joined(m: ModuleInstance, isPrint: char -> bool): string {
    if m == [] then "" else
    var last := m[|m| - 1];
    Joined(m[..|m| - 1], isPrint) + (if |m| == 1 then "" else ".") + "module." + last.name + KeyText(last.key, isPrint)
  }

  lemma {:induction false} JoinedIsRendered(m: ModuleInstance, isPrint: char -> bool)
    requires m != []
    ensures "." + Joined(m, isPrint) == Render(ModuleSteps(m), isPrint)
  {
    var init, last := m[..|m| - 1], m[|m| - 1];
    var piece := "module." + last.name + KeyText(last.key, isPrint);
    assert m == init + [last];
    ModuleTextGrows(init, last, isPrint);
    if init == [] {
      Append4(Joined(init, isPrint), "", "module.", last.name, KeyText(last.key, isPrint));
      assert "" + "" + piece == piece;
      assert "" + ("." + piece) == "." + piece;
    } else {
      JoinedIsRendered(init, isPrint);
      Append4(Joined(init, isPrint), ".", "module.", last.name, KeyText(last.key, isPrint));
      Dotted(Joined(init, isPrint), piece);
    }
  }

  lemma Append4(a: string, b: string, c: string, d: string, e: string)
    ensures a + b + c + d + e == a + b + (c + d + e)
  {
  }

  lemma Dotted(a: string, b: string)
    ensures "." + (a + "." + b) == ("." + a) + ("." + b)
  {
  }

  method ModuleInstanceString(m: ModuleInstance, isPrint: char -> bool) returns (r: string)
    ensures r == ModuleText(m, isPrint)
  {
    if |m| == 0 {
      return "";
    }
    var buf := "";
    var sep := "";
    for i := 0 to |m|
      invariant sep == if i == 0 then "" else "."
      invariant buf == Joined(m[..i], isPrint)
    {
      var step := m[i];
      assert m[..i + 1][..i] == m[..i];
      buf := buf + sep;
      buf := buf + "module.";
      buf := buf + step.name;
      if step.key != NoKey {
        buf := buf + KeyText(step.key, isPrint);
      }
      sep := ".";
    }
    assert m[..|m|] == m;
    JoinedIsRendered(m, isPrint);
    return buf;
  }

  // ---------------------------------------------------------------- texts are rendered steps

  lemma KeywordNames(keyword: string, dotted: string, a: string, b: string)
    requires dotted == keyword + "."
    ensures ("." + keyword) + ("." + a + "." + b) == "." + (dotted + a + "." + b)
  {
  }

  lemma RenderKeyword(keyword: string, dotted: string, r: Resource, isPrint: char -> bool)
    requires dotted == keyword + "."
    ensures Render([Attr(keyword)] + [Attr(r.typeName), Attr(r.name)], isPrint) ==
            "." + (dotted + r.typeName + "." + r.name)
  {
    RenderConcat([Attr(keyword)], [Attr(r.typeName), Attr(r.name)], isPrint);
    RenderOne(Attr(keyword), isPrint);
    RenderNames(r.typeName, r.name, isPrint);
    KeywordNames(keyword, dotted, r.typeName, r.name);
  }

  lemma RenderResource(r: Resource, isPrint: char -> bool)
    ensures Render(ResourceSteps(r), isPrint) == "." + ResourceText(r)
  {
    match r.mode {
      case Managed =>
        assert ResourceSteps(r) == [Attr(r.typeName), Attr(r.name)];
        RenderNames(r.typeName, r.name, isPrint);
      case Data =>
        RenderKeyword("data", "data.", r, isPrint);
      case Ephemeral =>
        RenderKeyword("ephemeral", "ephemeral.", r, isPrint);
    }
  }

  lemma ModuleTextIsRendered(m: ModuleInstance, isPrint: char -> bool)
    requires m != []
    ensures "." + ModuleText(m, isPrint) == Render(ModuleSteps(m), isPrint)
  {
    JoinedIsRendered(m, isPrint);
  }

  lemma AbsResourceTextIsRendered(r: AbsResource, isPrint: char -> bool)
    ensures "." + AbsResourceText(r, isPrint) == Render(AbsResourceSteps(r), isPrint)
  {
    RenderConcat(ModuleSteps(r.path), ResourceSteps(r.resource), isPrint);
    RenderResource(r.resource, isPrint);
    if r.path != [] {
      ModuleTextIsRendered(r.path, isPrint);
      Dotted(ModuleText(r.path, isPrint), ResourceText(r.resource));
    } else {
      assert AbsResourceSteps(r) == ResourceSteps(r.resource);
    }
  }

  lemma AbsInstanceTextIsRendered(ri: AbsResourceInstance, isPrint: char -> bool)
    ensures "." + AbsInstanceText(ri, isPrint) == Render(AbsInstanceSteps(ri), isPrint)
  {
    var r := ri.ContainingResource();
    var key := KeyText(ri.local.key, isPrint);
    AbsResourceTextIsRendered(r, isPrint);
    RenderConcat(AbsResourceSteps(r), KeySteps(ri.local.key), isPrint);
    RenderKey(ri.local.key, isPrint);
    Regroup(".", AbsResourceText(r, isPrint), key);
    Regroup(ModuleText(ri.path, isPrint) + ".", ResourceText(r.resource), key);
  }

  // ---------------------------------------------------------------- valid addresses

  predicate ValidModule(m: ModuleInstance) {
    forall i | 0 <= i < |m| :: IsIdentifier(m[i].name)
  }

  predicate ValidResource(r: Resource) {
    IsIdentifier(r.typeName) && IsIdentifier(r.name)
  }

  lemma {:induction false} ModuleStepsPrintable(m: ModuleInstance)
    requires ValidModule(m)
    ensures AllPrintable(ModuleSteps(m))
  {
    if m != [] {
      assert IsIdentifier(m[0].name);
      var names := [Attr("module"), Attr(m[0].name)];
      ModuleStepsPrintable(m[1..]);
      KeyStepsPrintable(m[0].key);
      PrintableConcat(names, KeySteps(m[0].key));
      PrintableConcat(names + KeySteps(m[0].key), ModuleSteps(m[1..]));
    }
  }

  lemma KeyStepsPrintable(key: InstanceKey)
    ensures AllPrintable(KeySteps(key))
  {
  }

  lemma ResourceStepsPrintable(r: Resource)
    requires ValidResource(r)
    ensures AllPrintable(ResourceSteps(r))
  {
    PrintableConcat(ModeSteps(r.mode), [Attr(r.typeName), Attr(r.name)]);
  }

  lemma InstanceStepsPrintable(ri: AbsResourceInstance)
    requires ValidModule(ri.path) && ValidResource(ri.local.resource)
    ensures AllPrintable(AbsInstanceSteps(ri)) && AllPrintable(AbsResourceSteps(ri.ContainingResource()))
  {
    ModuleStepsPrintable(ri.path);
    ResourceStepsPrintable(ri.local.resource);
    PrintableConcat(ModuleSteps(ri.path), ResourceSteps(ri.local.resource));
    KeyStepsPrintable(ri.local.key);
    PrintableConcat(AbsResourceSteps(ri.ContainingResource()), KeySteps(ri.local.key));
  }

  // ---------------------------------------------------------------- steps determine the address

  function NameCount(t: Traversal): nat {
    if t == [] then 0 else (if t[0].Attr? then 1 else 0) + NameCount(t[1..])
  }

  lemma {:induction false} NameCountConcat(t: Traversal, u: Traversal)
    ensures NameCount(t + u) == NameCount(t) + NameCount(u)
  {
    if t == [] {
      assert t + u == u;
    } else {
      assert (t + u)[1..] == t[1..] + u;
      NameCountConcat(t[1..], u);
    }
  }

  /** A module path is made of pairs of names. */
  lemma {:induction false} ModuleNamesEven(m: ModuleInstance)
    ensures NameCount(ModuleSteps(m)) % 2 == 0
  {
    if m != [] {
      var head := [Attr("module"), Attr(m[0].name)] + KeySteps(m[0].key);
      ModuleNamesEven(m[1..]);
      NameCountConcat(head, ModuleSteps(m[1..]));
      NameCountConcat([Attr("module"), Attr(m[0].name)], KeySteps(m[0].key));
      assert [Attr("module"), Attr(m[0].name)][1..] == [Attr(m[0].name)];
    }
  }

  lemma KeyStepsInjective(k: InstanceKey, l: InstanceKey)
    requires KeySteps(k) == KeySteps(l)
    ensures k == l
  {
    if k != NoKey {
      assert KeySteps(k)[0] == KeySteps(l)[0];
    }
  }

  lemma {:induction false} ModuleStepsInjective(m: ModuleInstance, n: ModuleInstance)
    requires ModuleSteps(m) == ModuleSteps(n)
    ensures m == n
  {
    if m != [] && n != [] {
      var s := ModuleSteps(m);
      var k := if |s| > 2 && s[2].Index? then 3 else 2;
      assert s[1] == Attr(m[0].name) == Attr(n[0].name);
      assert s[2..k] == KeySteps(m[0].key) && s[k..] == ModuleSteps(m[1..]);
      assert s[2..k] == KeySteps(n[0].key) && s[k..] == ModuleSteps(n[1..]);
      KeyStepsInjective(m[0].key, n[0].key);
      ModuleStepsInjective(m[1..], n[1..]);
      assert m == [m[0]] + m[1..] && n == [n[0]] + n[1..];
    }
  }

  lemma ModeNames(mode: ResourceMode)
    ensures NameCount(ModeSteps(mode)) == if mode == Managed then 0 else 1
  {
  }

  lemma ModeParity(m: ModuleInstance, mode: ResourceMode)
    ensures NameCount(ModuleSteps(m) + ModeSteps(mode)) % 2 == if mode == Managed then 0 else 1
  {
    ModuleNamesEven(m);
    NameCountConcat(ModuleSteps(m), ModeSteps(mode));
    ModeNames(mode);
  }

  /** A module path followed by an optional mode keyword is unambiguous: the parity of the number of
      names tells whether the keyword is there. */
  lemma ModeStepsInjective(m: ModuleInstance, n: ModuleInstance, a: ResourceMode, b: ResourceMode)
    requires ModuleSteps(m) + ModeSteps(a) == ModuleSteps(n) + ModeSteps(b)
    ensures m == n && a == b
  {
    ModeParity(m, a);
    ModeParity(n, b);
    if a == Managed {
      assert b == Managed;
      assert ModuleSteps(m) + [] == ModuleSteps(m) && ModuleSteps(n) + [] == ModuleSteps(n);
    } else {
      LastStep(ModuleSteps(m), ModeSteps(a)[0], ModuleSteps(n), ModeSteps(b)[0]);
    }
    ModuleStepsInjective(m, n);
  }

  lemma LastStep(t: Traversal, x: Step, u: Traversal, y: Step)
    requires t + [x] == u + [y]
    ensures t == u && x == y
  {
    var s := t + [x];
    assert s[|s| - 1] == x && s[|s| - 1] == y;
    assert s[..|s| - 1] == t && s[..|s| - 1] == u;
  }

  /** The steps of a resource end in its type and name, after its module path and mode. */
  lemma LastTwoSteps(r: AbsResource)
    ensures var s := AbsResourceSteps(r);
            && |s| >= 2 && s[|s| - 2] == Attr(r.resource.typeName) && s[|s| - 1] == Attr(r.resource.name)
            && s[..|s| - 2] == ModuleSteps(r.path) + ModeSteps(r.resource.mode)
  {
    var front := ModuleSteps(r.path) + ModeSteps(r.resource.mode);
    assert AbsResourceSteps(r) == front + [Attr(r.resource.typeName), Attr(r.resource.name)];
  }

  lemma AbsResourceStepsInjective(r: AbsResource, q: AbsResource)
    requires AbsResourceSteps(r) == AbsResourceSteps(q)
    ensures r == q
  {
    LastTwoSteps(r);
    LastTwoSteps(q);
    ModeStepsInjective(r.path, q.path, r.resource.mode, q.resource.mode);
  }

  lemma AbsInstanceStepsInjective(r: AbsResourceInstance, q: AbsResourceInstance)
    requires AbsInstanceSteps(r) == AbsInstanceSteps(q)
    ensures r == q
  {
    var s := AbsInstanceSteps(r);
    assert r.local.key == NoKey <==> s[|s| - 1].Attr?;
    assert q.local.key == NoKey <==> s[|s| - 1].Attr?;
    var k := |s| - |KeySteps(r.local.key)|;
    assert s[k..] == KeySteps(r.local.key) == KeySteps(q.local.key);
    assert r.local.key == q.local.key;
    assert s[..k] == AbsResourceSteps(r.ContainingResource()) == AbsResourceSteps(q.ContainingResource());
    AbsResourceStepsInjective(r.ContainingResource(), q.ContainingResource());
  }

  // ---------------------------------------------------------------- texts determine the address

  lemma ModuleTextInjective(m: ModuleInstance, n: ModuleInstance, isPrint: char -> bool)
    requires isPrint('{') && ValidModule(m) && ValidModule(n)
    requires ModuleText(m, isPrint) == ModuleText(n, isPrint)
    ensures m == n
  {
    ModuleStepsPrintable(m);
    ModuleStepsPrintable(n);
    if m != [] {
      ModuleTextIsRendered(m, isPrint);
      ModuleTextNotEmpty(m, isPrint);
    }
    if n != [] {
      ModuleTextIsRendered(n, isPrint);
      ModuleTextNotEmpty(n, isPrint);
    }
    if m != [] && n != [] {
      RenderInjective(ModuleSteps(m), ModuleSteps(n), isPrint);
      ModuleStepsInjective(m, n);
    }
  }

  lemma ModuleTextNotEmpty(m: ModuleInstance, isPrint: char -> bool)
    requires m != []
    ensures ModuleText(m, isPrint) != ""
  {
    ModuleTextIsRendered(m, isPrint);
    assert m == [m[0]] + m[1..];
    ModuleStepsSplit([m[0]], m[1..]);
    RenderConcat(ModuleSteps([m[0]]), ModuleSteps(m[1..]), isPrint);
    StepRendered(m[0], isPrint);
  }

  lemma AbsResourceTextInjective(r: AbsResource, q: AbsResource, isPrint: char -> bool)
    requires isPrint('{')
    requires ValidModule(r.path) && ValidResource(r.resource) && ValidModule(q.path) && ValidResource(q.resource)
    requires AbsResourceText(r, isPrint) == AbsResourceText(q, isPrint)
    ensures r == q
  {
    AbsResourceTextIsRendered(r, isPrint);
    AbsResourceTextIsRendered(q, isPrint);
    InstanceStepsPrintable(InstanceOf(r, NoKey));
    InstanceStepsPrintable(InstanceOf(q, NoKey));
    RenderInjective(AbsResourceSteps(r), AbsResourceSteps(q), isPrint);
    AbsResourceStepsInjective(r, q);
  }

  lemma AbsInstanceTextInjective(r: AbsResourceInstance, q: AbsResourceInstance, isPrint: char -> bool)
    requires isPrint('{')
    requires ValidModule(r.path) && ValidResource(r.local.resource)
    requires ValidModule(q.path) && ValidResource(q.local.resource)
    requires AbsInstanceText(r, isPrint) == AbsInstanceText(q, isPrint)
    ensures r == q
  {
    AbsInstanceTextIsRendered(r, isPrint);
    AbsInstanceTextIsRendered(q, isPrint);
    InstanceStepsPrintable(r);
    InstanceStepsPrintable(q);
    RenderInjective(AbsInstanceSteps(r), AbsInstanceSteps(q), isPrint);
    AbsInstanceStepsInjective(r, q);
  }

  /** A keyed instance never has the text of a resource: its last step is an index. */
  lemma KeyedInstanceIsNoResource(ri: AbsResourceInstance, r: AbsResource, isPrint: char -> bool)
    requires isPrint('{') && ri.local.key != NoKey
    requires ValidModule(ri.path) && ValidResource(ri.local.resource)
    requires ValidModule(r.path) && ValidResource(r.resource)
    ensures AbsInstanceText(ri, isPrint) != AbsResourceText(r, isPrint)
  {
    if AbsInstanceText(ri, isPrint) == AbsResourceText(r, isPrint) {
      var whole := InstanceOf(r, NoKey);
      assert AbsInstanceText(whole, isPrint) == AbsResourceText(r, isPrint);
      AbsInstanceTextInjective(ri, whole, isPrint);
      assert false;
    }
  }
}
