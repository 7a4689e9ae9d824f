/** The sort order of addresses: the `Less` methods of `instance_key.go`, `module_instance.go` and
    `resource.go`.

    For each kind of address two lemmas say that the order is a strict total order: exactly one of
    "less", "equal" and "greater" holds, and "less" is transitive.
 */
module Ordering {
  import opened Addrs

  /** Exactly one of the three holds. */
  predicate Trichotomy(less: bool, equal: bool, greater: bool) {
    (less || equal || greater) && !(less && equal) && !(less && greater) && !(equal && greater)
  }

  /** Text order. Comparing UTF-8 bytes and comparing code points give the same order. */
  predicate TextLess(a: string, b: string) {
    if b == "" then false
    else if a == "" then true
    else if a[0] != b[0] then a[0] < b[0]
    else TextLess(a[1..], b[1..])
  }

  lemma {:induction false} TextTotal(a: string, b: string)
    ensures Trichotomy(TextLess(a, b), a == b, TextLess(b, a))
  {
    if a != "" && b != "" && a[0] == b[0] {
      TextTotal(a[1..], b[1..]);
      assert a == [a[0]] + a[1..] && b == [b[0]] + b[1..];
    }
  }

  lemma {:induction false} TextTransitive(a: string, b: string, c: string)
    requires TextLess(a, b) && TextLess(b, c)
    ensures TextLess(a, c)
  {
    if a != "" && a[0] == b[0] == c[0] {
      TextTransitive(a[1..], b[1..], c[1..]);
    }
  }

  /** Two texts agree up to position `k`, where the first one ends or has the smaller character. */
  predicate DiffersAt(a: string, b: string, k: nat) {
    k <= |a| && k < |b| && a[..k] == b[..k] && (k == |a| || a[k] < b[k])
  }

  /** Which of two texts comes first is decided where they first differ; a proper prefix comes before the longer
      text. */
  lemma {:induction false} TextOrder(a: string, b: string)
    ensures TextLess(a, b) <==> exists k: nat :: DiffersAt(a, b, k)
  {
    if a != "" && b != "" && a[0] == b[0] {
      TextOrder(a[1..], b[1..]);
      if k: nat :| DiffersAt(a[1..], b[1..], k) {
        assert a[..k + 1] == [a[0]] + a[1..][..k] && b[..k + 1] == [b[0]] + b[1..][..k];
        assert DiffersAt(a, b, k + 1);
      }
      if k: nat :| DiffersAt(a, b, k) {
        assert k > 0;
        assert a[1..][..k - 1] == a[..k][1..] && b[1..][..k - 1] == b[..k][1..];
        assert DiffersAt(a[1..], b[1..], k - 1);
      }
    } else if b != "" {
      assert a[..0] == b[..0];
      if TextLess(a, b) {
        assert DiffersAt(a, b, 0);
      }
      if k: nat :| DiffersAt(a, b, k) {
        assert k > 0 ==> a[..k][0] == b[..k][0];
      }
    }
  }

  // ---------------------------------------------------------------- instance keys

  function KeyTypeCode(k: InstanceKey): nat {
    match k
    case NoKey => 0
    case IntKey(_) => 'I' as nat
    case StringKey(_) => 'S' as nat
  }

  predicate InstanceKeyLess(i: InstanceKey, j: InstanceKey) {
    if i == j then false
    else if i == NoKey then true
    else if j == NoKey then false
    else if KeyTypeCode(i) != KeyTypeCode(j) then KeyTypeCode(i) < KeyTypeCode(j)
    else if i.IntKey? then i.index < j.index
    else TextLess(i.text, j.text)
  }

  lemma KeyTotal(i: InstanceKey, j: InstanceKey)
    ensures Trichotomy(InstanceKeyLess(i, j), i == j, InstanceKeyLess(j, i))
  {
    if i.StringKey? && j.StringKey? {
      TextTotal(i.text, j.text);
    }
  }

  lemma KeyTransitive(i: InstanceKey, j: InstanceKey, k: InstanceKey)
    requires InstanceKeyLess(i, j) && InstanceKeyLess(j, k)
    ensures InstanceKeyLess(i, k)
  {
    if i.StringKey? && j.StringKey? && k.StringKey? {
      TextTransitive(i.text, j.text, k.text);
      TextTotal(i.text, k.text);
    }
  }

  /** Which of two keys comes first: none before any, integers before texts, integers by value and texts as texts. */
  lemma KeyOrder(i: InstanceKey, j: InstanceKey)
    ensures i == NoKey ==> (InstanceKeyLess(i, j) <==> j != NoKey)
    ensures i.IntKey? ==> (InstanceKeyLess(i, j) <==> j.StringKey? || (j.IntKey? && i.index < j.index))
    ensures i.StringKey? ==>
              (InstanceKeyLess(i, j) <==> j.StringKey? && exists k: nat :: DiffersAt(i.text, j.text, k))
  {
    if i.StringKey? && j.StringKey? {
      TextOrder(i.text, j.text);
      TextTotal(i.text, j.text);
    }
  }

  // ---------------------------------------------------------------- module instances

  predicate StepLess(s: ModuleInstanceStep, t: ModuleInstanceStep) {
    if s.name != t.name then TextLess(s.name, t.name) else InstanceKeyLess(s.key, t.key)
  }

  lemma StepTotal(s: ModuleInstanceStep, t: ModuleInstanceStep)
    ensures Trichotomy(StepLess(s, t), s == t, StepLess(t, s))
  {
    TextTotal(s.name, t.name);
    KeyTotal(s.key, t.key);
  }

  lemma StepTransitive(s: ModuleInstanceStep, t: ModuleInstanceStep, u: ModuleInstanceStep)
    requires StepLess(s, t) && StepLess(t, u)
    ensures StepLess(s, u)
  {
    if s.name == t.name == u.name {
      KeyTransitive(s.key, t.key, u.key);
    } else if s.name != t.name && t.name != u.name {
      TextTransitive(s.name, t.name, u.name);
      TextTotal(s.name, u.name);
    }
  }

  /** The first differing step decides. */
  predicate StepsLess(m: ModuleInstance, o: ModuleInstance)
    requires |m| == |o|
  {
    if m == [] then false
    else if m[0] != o[0] then StepLess(m[0], o[0])
    else StepsLess(m[1..], o[1..])
  }

  /** Shorter paths come first. */
  predicate ModuleLess(m: ModuleInstance, o: ModuleInstance) {
    if |m| != |o| then |m| < |o| else StepsLess(m, o)
  }

  method ModuleInstanceLess(m: ModuleInstance, o: ModuleInstance) returns (r: bool)
    ensures r == ModuleLess(m, o)
  {
    if |m| != |o| {
      return |m| < |o|;
    }
    for i := 0 to |m|
      invariant StepsLess(m, o) == StepsLess(m[i..], o[i..])
    {
      var mS, oS := m[i], o[i];
      if mS.name != oS.name {
        return TextLess(mS.name, oS.name);
      }
      if mS.key != oS.key {
        return InstanceKeyLess(mS.key, oS.key);
      }
      assert m[i..][1..] == m[i + 1..] && o[i..][1..] == o[i + 1..];
    }
    return false;
  }

  lemma {:induction false} ModuleTotal(m: ModuleInstance, o: ModuleInstance)
    ensures Trichotomy(ModuleLess(m, o), m == o, ModuleLess(o, m))
  {
    if |m| == |o| && m != [] {
      StepTotal(m[0], o[0]);
      ModuleTotal(m[1..], o[1..]);
      assert m == [m[0]] + m[1..] && o == [o[0]] + o[1..];
    }
  }

  lemma {:induction false} ModuleTransitive(m: ModuleInstance, o: ModuleInstance, p: ModuleInstance)
    requires ModuleLess(m, o) && ModuleLess(o, p)
    ensures ModuleLess(m, p)
  {
    if |m| == |o| == |p| && m != [] {
      if m[0] == o[0] == p[0] {
        ModuleTransitive(m[1..], o[1..], p[1..]);
      } else if m[0] != o[0] && o[0] != p[0] {
        StepTransitive(m[0], o[0], p[0]);
        StepTotal(m[0], p[0]);
      }
    }
  }

  /** Two paths agree before step `k`, where the first one has the smaller name or, with equal names, key. */
  predicate StepsDifferAt(m: ModuleInstance, o: ModuleInstance, k: nat) {
    && k < |m| && k < |o| && m[..k] == o[..k]
    && (TextLess(m[k].name, o[k].name) || (m[k].name == o[k].name && InstanceKeyLess(m[k].key, o[k].key)))
  }

  /** Which of two module instances comes first: the shorter one, and of equally long ones the one that is smaller
      where they first differ. */
  lemma {:induction false} ModuleOrder(m: ModuleInstance, o: ModuleInstance)
    ensures ModuleLess(m, o) <==> |m| < |o| || (|m| == |o| && exists k: nat :: StepsDifferAt(m, o, k))
  {
    if |m| == |o| && m != [] {
      TextTotal(m[0].name, o[0].name);
      KeyTotal(m[0].key, o[0].key);
      if m[0] == o[0] {
        ModuleOrder(m[1..], o[1..]);
        if k: nat :| StepsDifferAt(m[1..], o[1..], k) {
          assert m[..k + 1] == [m[0]] + m[1..][..k] && o[..k + 1] == [o[0]] + o[1..][..k];
          assert StepsDifferAt(m, o, k + 1);
        }
        if k: nat :| StepsDifferAt(m, o, k) {
          assert k > 0;
          assert m[1..][..k - 1] == m[..k][1..] && o[1..][..k - 1] == o[..k][1..];
          assert StepsDifferAt(m[1..], o[1..], k - 1);
        }
      } else {
        assert m[..0] == o[..0];
        if ModuleLess(m, o) {
          assert StepsDifferAt(m, o, 0);
        }
        if k: nat :| StepsDifferAt(m, o, k) {
          assert k > 0 ==> m[..k][0] == o[..k][0];
        }
      }
    }
  }

  // ---------------------------------------------------------------- resources and their instances

  predicate ModeLess(a: ResourceMode, b: ResourceMode) {
    match a
    case Managed => false
    case Data => b == Managed
    case Ephemeral => b == Managed || b == Data
  }

  predicate ResourceLess(r: Resource, o: Resource) {
    if r.mode != o.mode then ModeLess(r.mode, o.mode)
    else if r.typeName != o.typeName then TextLess(r.typeName, o.typeName)
    else if r.name != o.name then TextLess(r.name, o.name)
    else false
  }

  lemma ResourceTotal(r: Resource, o: Resource)
    ensures Trichotomy(ResourceLess(r, o), r == o, ResourceLess(o, r))
  {
    TextTotal(r.typeName, o.typeName);
    TextTotal(r.name, o.name);
  }

  lemma ResourceTransitive(r: Resource, o: Resource, p: Resource)
    requires ResourceLess(r, o) && ResourceLess(o, p)
    ensures ResourceLess(r, p)
  {
    if r.mode == o.mode == p.mode {
      if r.typeName == o.typeName == p.typeName {
        TextTransitive(r.name, o.name, p.name);
        TextTotal(r.name, p.name);
      } else if r.typeName != o.typeName && o.typeName != p.typeName {
        TextTransitive(r.typeName, o.typeName, p.typeName);
        TextTotal(r.typeName, p.typeName);
      }
    }
  }

  /** Which of two resources comes first: ephemeral before data before managed, then by type, then by name. */
  lemma ResourceOrder(r: Resource, o: Resource)
    ensures ResourceLess(r, o) <==>
            || (r.mode == Ephemeral && o.mode != Ephemeral) || (r.mode == Data && o.mode == Managed)
            || (r.mode == o.mode && TextLess(r.typeName, o.typeName))
            || (r.mode == o.mode && r.typeName == o.typeName && TextLess(r.name, o.name))
  {
    TextTotal(r.typeName, o.typeName);
    TextTotal(r.name, o.name);
  }

  predicate ResourceInstanceLess(r: ResourceInstance, o: ResourceInstance) {
    if r.resource != o.resource then ResourceLess(r.resource, o.resource)
    else if r.key != o.key then InstanceKeyLess(r.key, o.key)
    else false
  }

  lemma ResourceInstanceTotal(r: ResourceInstance, o: ResourceInstance)
    ensures Trichotomy(ResourceInstanceLess(r, o), r == o, ResourceInstanceLess(o, r))
  {
    ResourceTotal(r.resource, o.resource);
    KeyTotal(r.key, o.key);
  }

  lemma ResourceInstanceTransitive(r: ResourceInstance, o: ResourceInstance, p: ResourceInstance)
    requires ResourceInstanceLess(r, o) && ResourceInstanceLess(o, p)
    ensures ResourceInstanceLess(r, p)
  {
    if r.resource == o.resource == p.resource {
      KeyTransitive(r.key, o.key, p.key);
      KeyTotal(r.key, p.key);
    } else if r.resource != o.resource && o.resource != p.resource {
      ResourceTransitive(r.resource, o.resource, p.resource);
      ResourceTotal(r.resource, p.resource);
    }
  }

  predicate AbsResourceLess(r: AbsResource, o: AbsResource) {
    if r.path != o.path then ModuleLess(r.path, o.path)
    else if r.resource != o.resource then ResourceLess(r.resource, o.resource)
    else false
  }

  predicate AbsInstanceLess(r: AbsResourceInstance, o: AbsResourceInstance) {
    if r.path != o.path then ModuleLess(r.path, o.path)
    else if r.local != o.local then ResourceInstanceLess(r.local, o.local)
    else false
  }

  lemma AbsResourceTotal(r: AbsResource, o: AbsResource)
    ensures Trichotomy(AbsResourceLess(r, o), r == o, AbsResourceLess(o, r))
  {
    ModuleTotal(r.path, o.path);
    ResourceTotal(r.resource, o.resource);
  }

  lemma AbsInstanceTotal(r: AbsResourceInstance, o: AbsResourceInstance)
    ensures Trichotomy(AbsInstanceLess(r, o), r == o, AbsInstanceLess(o, r))
  {
    ModuleTotal(r.path, o.path);
    ResourceInstanceTotal(r.local, o.local);
  }

  lemma AbsInstanceTransitive(r: AbsResourceInstance, o: AbsResourceInstance, p: AbsResourceInstance)
    requires AbsInstanceLess(r, o) && AbsInstanceLess(o, p)
    ensures AbsInstanceLess(r, p)
  {
    if r.path == o.path == p.path {
      ResourceInstanceTransitive(r.local, o.local, p.local);
      ResourceInstanceTotal(r.local, p.local);
    } else if r.path != o.path && o.path != p.path {
      ModuleTransitive(r.path, o.path, p.path);
      ModuleTotal(r.path, p.path);
    }
  }

  /** Which of two resource instances comes first: by module, then by resource, then by key. */
  lemma AbsInstanceOrder(r: AbsResourceInstance, o: AbsResourceInstance)
    ensures AbsInstanceLess(r, o) <==>
            || ModuleLess(r.path, o.path)
            || (r.path == o.path && ResourceLess(r.local.resource, o.local.resource))
            || (r.ContainingResource() == o.ContainingResource() && InstanceKeyLess(r.local.key, o.local.key))
  {
    ModuleTotal(r.path, o.path);
    ResourceTotal(r.local.resource, o.local.resource);
    KeyTotal(r.local.key, o.local.key);
  }

  // ---------------------------------------------------------------- sorting keeps resources together

  predicate Sorted(s: seq<AbsResourceInstance>) {
    forall i, j | 0 <= i < j < |s| :: !AbsInstanceLess(s[j], s[i])
  }

  /** The order of instances refines the order of the resources they belong to. */
  lemma InstanceOrderRefines(r: AbsResourceInstance, o: AbsResourceInstance)
    requires !AbsInstanceLess(r, o)
    ensures !AbsResourceLess(r.ContainingResource(), o.ContainingResource())
  {
    ResourceTotal(r.local.resource, o.local.resource);
  }

  /** However many instances are sorted, those of one resource end up next to each other. */
  lemma SortedKeepsResourcesTogether(s: seq<AbsResourceInstance>, i: nat, j: nat, k: nat)
    requires Sorted(s) && i < j < k < |s|
    requires s[i].ContainingResource() == s[k].ContainingResource()
    ensures s[j].ContainingResource() == s[i].ContainingResource()
  {
    assert !AbsInstanceLess(s[j], s[i]) && !AbsInstanceLess(s[k], s[j]);
    InstanceOrderRefines(s[j], s[i]);
    InstanceOrderRefines(s[k], s[j]);
    AbsResourceTotal(s[i].ContainingResource(), s[j].ContainingResource());
  }
}
