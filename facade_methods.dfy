/**
 The facade method-table builder of the Laravel extension for PHPStan.

 For a class that extends Laravel's `Facade`, the builder computes once, and
 caches, the table of method signatures that static calls on the facade expose.
 The table merges three sources, in this priority:
   1. the `@method` tags of the facade's own doc block (annotated entries);
   2. the public methods of the facade root's class (reflected entries);
   3. when the root's class is a manager listed in `Extensions`, the public
      methods of the object its accessor returns (reflected entries too).
 Reflection, the doc-block parser and the live `getFacadeRoot()` call are
 foreign; they appear here as plain inputs (`ClassInfo`, `Instance`).
 */
module Facades {

  datatype Option<+T> = None | Some(value: T)

  /** A type as written in a tag or reported by reflection; opaque here. */
  datatype TypeRef = TypeRef(text: string)

  /** A parameter of an `@method` tag, as the doc-block parser reports it. */
  datatype ParamTag = ParamTag(name: string, typ: TypeRef, byRef: bool, optional: bool, variadic: bool)

  /** An `@method` tag of a doc block, parameters in declared order. */
  datatype MethodTag = MethodTag(name: string, returnType: TypeRef, isStatic: bool, params: seq<ParamTag>)

  /** A parameter of an annotated method entry. */
  datatype Parameter = Parameter(name: string, typ: TypeRef, byRef: bool, optional: bool, variadic: bool)

  /** A public method found by native reflection on a class. */
  datatype NativeMethod = NativeMethod(name: string, isStatic: bool, params: seq<Parameter>, returnType: TypeRef)

  /** How a reflected entry is dispatched: as the native method declares, or forced static. */
  datatype Dispatch = AsDeclared | AlwaysStatic

  /** One entry of a facade's method table. */
  datatype MethodEntry =
    | Annotated(name: string, declaringClass: string, returnType: TypeRef,
                params: seq<Parameter>, isStatic: bool, isVariadic: bool)
    | Reflected(declaringClass: string, native: NativeMethod, dispatch: Dispatch)
  {
    function Name(): string {
      if Annotated? then name else native.name
    }

    /** Whether calls through this entry are treated as static calls. */
    predicate IsStaticCall() {
      if Annotated? then isStatic else dispatch == AlwaysStatic || native.isStatic
    }
  }

  /**
   What the analysis knows about a class: its name, whether it is a subclass
   of `Facade`, the `@method` tags of its doc block (`None` when it has no doc
   block) and its public methods in reflection order.
   */
  datatype ClassInfo = ClassInfo(name: string, isFacade: bool,
                                 docMethodTags: Option<seq<MethodTag>>,
                                 publicMethods: seq<NativeMethod>)

  /**
   The live facade root: its class, and for each zero-argument accessor the
   class of the object that calling it returns.
   */
  datatype Instance = Instance(cls: ClassInfo, accessorResults: map<string, ClassInfo>)

  const AuthManager := "Illuminate\\Auth\\AuthManager"
  const BroadcastManager := "Illuminate\\Broadcasting\\BroadcastManager"

  /** Manager classes whose methods are extended by those of a selected sub-object. */
  const Extensions: map<string, string> := map[AuthManager := "guard", BroadcastManager := "driver"]

  /** The root's mapped accessor, if any, can be called and yields an object. */
  predicate Resolvable(root: Instance) {
    root.cls.name in Extensions ==> Extensions[root.cls.name] in root.accessorResults
  }

  // ---------------------------------------------------------------------------
  // Building blocks of a table

  function ToParameter(t: ParamTag): Parameter {
    Parameter(t.name, t.typ, t.byRef, t.optional, t.variadic)
  }

  function ParametersOf(ts: seq<ParamTag>): seq<Parameter> {
    if ts == [] then [] else ParametersOf(ts[..|ts| - 1]) + [ToParameter(ts[|ts| - 1])]
  }

  predicate Copies(p: Parameter, t: ParamTag) {
    p.name == t.name && p.typ == t.typ && p.byRef == t.byRef
    && p.optional == t.optional && p.variadic == t.variadic
  }

  /** Whether a signature is variadic: only its last parameter is consulted. */
  function DetectVariadic(ps: seq<Parameter>): bool {
    if ps == [] then false else ps[|ps| - 1].variadic
  }

  function AnnotationEntry(owner: string, tag: MethodTag): MethodEntry {
    var ps := ParametersOf(tag.params);
    Annotated(tag.name, owner, tag.returnType, ps, tag.isStatic, DetectVariadic(ps))
  }

  function TagsOf(cls: ClassInfo): seq<MethodTag> {
    if cls.docMethodTags.Some? then cls.docMethodTags.value else []
  }

  /** The annotated entries, inserted tag by tag; a later tag replaces an earlier one of the same name. */
  function AnnotatedTable(owner: string, tags: seq<MethodTag>): map<string, MethodEntry> {
    if tags == [] then map[]
    else
      var last := tags[|tags| - 1];
      AnnotatedTable(owner, tags[..|tags| - 1])[last.name := AnnotationEntry(owner, last)]
  }

  /** `acc` extended method by method with forced-static entries for names not yet present. */
  function WithReflected(acc: map<string, MethodEntry>, owner: string, ms: seq<NativeMethod>)
    : map<string, MethodEntry>
  {
    if ms == [] then acc
    else
      var prev := WithReflected(acc, owner, ms[..|ms| - 1]);
      var m := ms[|ms| - 1];
      if m.name in prev then prev else prev[m.name := Reflected(owner, m, AlwaysStatic)]
  }

  /** The table one pass of the builder produces for facade `cls` against class `instance`. */
  function CreatedTable(cls: ClassInfo, instance: ClassInfo): map<string, MethodEntry> {
    WithReflected(AnnotatedTable(cls.name, TagsOf(cls)), cls.name, instance.publicMethods)
  }

  /** PHP's array union `a + b`: keys of `a` keep their values, keys only in `b` are added. */
  function LeftUnion<K, V>(a: map<K, V>, b: map<K, V>): (r: map<K, V>)
    ensures r.Keys == a.Keys + b.Keys
    ensures forall k :: k in a ==> r[k] == a[k]
    ensures forall k :: k in b && k !in a ==> r[k] == b[k]
  {
    map k | k in a.Keys + b.Keys :: if k in a then a[k] else b[k]
  }

  /** The table cached for facade `cls` whose root is `root`. */
  function FacadeTable(cls: ClassInfo, root: Instance): map<string, MethodEntry>
    requires Resolvable(root)
  {
    var first := CreatedTable(cls, root.cls);
    if root.cls.name in Extensions then
      LeftUnion(first, CreatedTable(cls, root.accessorResults[Extensions[root.cls.name]]))
    else
      first
  }

  /** Every entry is filed under its own name, belongs to the facade, and reflected entries are forced static. */
  ghost predicate WellFormed(owner: string, t: map<string, MethodEntry>) {
    forall n :: n in t ==>
      t[n].Name() == n && t[n].declaringClass == owner
      && (t[n].Reflected? ==> t[n].dispatch == AlwaysStatic)
  }

  // ---------------------------------------------------------------------------
  // Reference definition: which source answers for a name

  /** The last tag named `n`, searching from the front. */
  function LastTagNamed(tags: seq<MethodTag>, n: string): Option<MethodTag> {
    if tags == [] then None
    else
      var later := LastTagNamed(tags[1..], n);
      if later.Some? then later else if tags[0].name == n then Some(tags[0]) else None
  }

  /** The first method named `n`. */
  function FirstMethodNamed(ms: seq<NativeMethod>, n: string): Option<NativeMethod> {
    if ms == [] then None
    else if ms[0].name == n then Some(ms[0])
    else FirstMethodNamed(ms[1..], n)
  }

  /**
   The entry a facade exposes for `n`: the doc block first, then the root's
   public methods, then those of the extension object.
   */
  function Resolve(cls: ClassInfo, root: Instance, n: string): Option<MethodEntry>
    requires Resolvable(root)
  {
    match LastTagNamed(TagsOf(cls), n)
    case Some(tag) => Some(AnnotationEntry(cls.name, tag))
    case None =>
      match FirstMethodNamed(root.cls.publicMethods, n)
      case Some(m) => Some(Reflected(cls.name, m, AlwaysStatic))
      case None =>
        if root.cls.name !in Extensions then None
        else
          match FirstMethodNamed(root.accessorResults[Extensions[root.cls.name]].publicMethods, n)
          case Some(m) => Some(Reflected(cls.name, m, AlwaysStatic))
          case None => None
  }

  // ---------------------------------------------------------------------------
  // The extension object

  class FacadeMethodExtension {
    /** Per facade class name, its method table; filled once per class. */
    var methods: map<string, map<string, MethodEntry>>

    ghost predicate Valid()
      reads this
    {
      forall c :: c in methods ==> WellFormed(c, methods[c])
    }

    constructor ()
      ensures Valid() && methods == map[]
    {
      methods := map[];
    }

    /**
     Whether static calls of `methodName` on `cls` are known; builds and caches
     the table of `cls` on the first query for a facade. `root` stands for what
     `getFacadeRoot()` returns.
     */
    method HasMethod(cls: ClassInfo, methodName: string, root: Instance) returns (found: bool)
      requires Valid()
      requires cls.isFacade && cls.name !in methods ==> Resolvable(root)
      modifies this
      ensures Valid()
      ensures cls.isFacade && cls.name !in old(methods) ==>
        methods == old(methods)[cls.name := FacadeTable(cls, root)]
      ensures !cls.isFacade || cls.name in old(methods) ==> methods == old(methods)
      ensures found <==> cls.name in methods && methodName in methods[cls.name]
      ensures !cls.isFacade && cls.name !in old(methods) ==> !found
    {
      if cls.isFacade {
        if cls.name !in methods {
          var instanceReflection := root.cls;
          var created := CreateMethods(cls, instanceReflection);
          methods := methods[cls.name := created];
          if instanceReflection.name in Extensions {
            var extensionMethod := Extensions[instanceReflection.name];
            var extensionReflection := root.accessorResults[extensionMethod];
            var more := CreateMethods(cls, extensionReflection);
            methods := methods[cls.name := LeftUnion(methods[cls.name], more)];
          }
          FacadeTableWellFormed(cls, root);
        }
      }
      found := cls.name in methods && methodName in methods[cls.name];
    }

    /** The cached entry for `methodName`; only defined after `HasMethod` said yes. */
    function GetMethod(cls: ClassInfo, methodName: string): (e: MethodEntry)
      reads this
      requires Valid()
      requires cls.name in methods && methodName in methods[cls.name]
      ensures e.Name() == methodName && e.declaringClass == cls.name
      ensures e.Reflected? ==> e.IsStaticCall()
    {
      methods[cls.name][methodName]
    }
  }

  /**
   One pass of the builder: the annotated entries of `cls`'s doc block, then a
   forced-static entry for each public method of `instance` not yet present.
   */
  method CreateMethods(cls: ClassInfo, instance: ClassInfo) returns (table: map<string, MethodEntry>)
    ensures table == CreatedTable(cls, instance)
  {
    table := map[];
    var tags := TagsOf(cls);
    if cls.docMethodTags.Some? {
      var i := 0;
      while i < |tags|
        invariant 0 <= i <= |tags|
        invariant table == AnnotatedTable(cls.name, tags[..i])
      {
        var tag := tags[i];
        var parameters := [];
        var k := 0;
        while k < |tag.params|
          invariant 0 <= k <= |tag.params|
          invariant parameters == ParametersOf(tag.params[..k])
        {
          parameters := parameters + [ToParameter(tag.params[k])];
          k := k + 1;
          assert tag.params[..k][..k - 1] == tag.params[..k - 1];
        }
        assert tag.params[..k] == tag.params;
        table := table[tag.name := Annotated(tag.name, cls.name, tag.returnType, parameters,
                                             tag.isStatic, DetectVariadic(parameters))];
        i := i + 1;
        assert tags[..i][..i - 1] == tags[..i - 1];
      }
    }
    assert tags[..|tags|] == tags;
    ghost var annotated := table;
    var ms := instance.publicMethods;
    var j := 0;
    while j < |ms|
      invariant 0 <= j <= |ms|
      invariant table == WithReflected(annotated, cls.name, ms[..j])
    {
      var m := ms[j];
      j := j + 1;
      assert ms[..j][..j - 1] == ms[..j - 1];
      if m.name in table {
        continue;
      }
      table := table[m.name := Reflected(cls.name, m, AlwaysStatic)];
    }
    assert ms[..j] == ms;
  }

  // ---------------------------------------------------------------------------
  // Lemmas

  /** Annotated parameters are the tag's parameters, in order, with every flag copied. */
  lemma {:induction false} ParametersCopied(ts: seq<ParamTag>)
    ensures |ParametersOf(ts)| == |ts|
    ensures forall i :: 0 <= i < |ts| ==> Copies(ParametersOf(ts)[i], ts[i])
  {
    if ts != [] {
      ParametersCopied(ts[..|ts| - 1]);
    }
  }

  /** An annotated entry takes name, return type, static flag and parameters from its tag. */
  lemma AnnotationEntryFromTag(owner: string, tag: MethodTag)
    ensures var e := AnnotationEntry(owner, tag);
      && e.Annotated? && e.name == tag.name && e.declaringClass == owner
      && e.returnType == tag.returnType && e.isStatic == tag.isStatic
      && |e.params| == |tag.params|
      && (forall i :: 0 <= i < |tag.params| ==> Copies(e.params[i], tag.params[i]))
      && e.isVariadic == (tag.params != [] && tag.params[|tag.params| - 1].variadic)
  {
    ParametersCopied(tag.params);
  }

  /** The variadic flag is the last parameter's, whatever the earlier ones say. */
  lemma LastParameterDecides(ps: seq<Parameter>, p: Parameter)
    ensures DetectVariadic(ps + [p]) == p.variadic
    ensures DetectVariadic([]) == false
  {
  }

  /** A variadic flag on a parameter that is not last is not detected. */
  lemma EarlierVariadicIgnored(a: Parameter, b: Parameter)
    requires a.variadic && !b.variadic
    ensures !DetectVariadic([a, b])
    ensures exists i :: 0 <= i < |[a, b]| && [a, b][i].variadic
  {
    assert [a, b][0].variadic;
  }

  lemma {:induction false} LastTagSnoc(tags: seq<MethodTag>, t: MethodTag, n: string)
    ensures LastTagNamed(tags + [t], n) == if t.name == n then Some(t) else LastTagNamed(tags, n)
  {
    if tags != [] {
      assert (tags + [t])[1..] == tags[1..] + [t];
      LastTagSnoc(tags[1..], t, n);
    }
  }

  lemma {:induction false} FirstMethodSnoc(ms: seq<NativeMethod>, m: NativeMethod, n: string)
    ensures FirstMethodNamed(ms + [m], n) ==
      if FirstMethodNamed(ms, n).Some? then FirstMethodNamed(ms, n)
      else if m.name == n then Some(m) else None
  {
    if ms != [] {
      assert (ms + [m])[1..] == ms[1..] + [m];
      FirstMethodSnoc(ms[1..], m, n);
    }
  }

  /** What the tag search finds is a tag of the list, with the name searched for. */
  lemma {:induction false} LastTagNamedFinds(tags: seq<MethodTag>, n: string)
    ensures LastTagNamed(tags, n).Some? <==> exists t :: t in tags && t.name == n
    ensures LastTagNamed(tags, n).Some? ==>
      LastTagNamed(tags, n).value in tags && LastTagNamed(tags, n).value.name == n
  {
    if tags != [] {
      LastTagNamedFinds(tags[1..], n);
      assert forall t :: t in tags ==> t == tags[0] || t in tags[1..];
    }
  }

  /** What the method search finds is a method of the list, with the name searched for. */
  lemma {:induction false} FirstMethodNamedFinds(ms: seq<NativeMethod>, n: string)
    ensures FirstMethodNamed(ms, n).Some? <==> exists m :: m in ms && m.name == n
    ensures FirstMethodNamed(ms, n).Some? ==>
      FirstMethodNamed(ms, n).value in ms && FirstMethodNamed(ms, n).value.name == n
  {
    if ms != [] {
      FirstMethodNamedFinds(ms[1..], n);
      assert forall m :: m in ms ==> m == ms[0] || m in ms[1..];
    }
  }

  /** The annotated table answers for `n` with the entry of the last tag named `n`. */
  lemma {:induction false} AnnotatedTableLookup(owner: string, tags: seq<MethodTag>, n: string)
    ensures (n in AnnotatedTable(owner, tags)) == LastTagNamed(tags, n).Some?
    ensures n in AnnotatedTable(owner, tags) ==>
      AnnotatedTable(owner, tags)[n] == AnnotationEntry(owner, LastTagNamed(tags, n).value)
  {
    if tags != [] {
      var init, last := tags[..|tags| - 1], tags[|tags| - 1];
      assert tags == init + [last];
      AnnotatedTableLookup(owner, init, n);
      LastTagSnoc(init, last, n);
    }
  }

  /** Reflected insertion keeps every entry already present and adds the first method of each new name. */
  lemma {:induction false} WithReflectedLookup(acc: map<string, MethodEntry>, owner: string,
                                               ms: seq<NativeMethod>, n: string)
    ensures (n in WithReflected(acc, owner, ms)) == (n in acc || FirstMethodNamed(ms, n).Some?)
    ensures n in acc ==> WithReflected(acc, owner, ms)[n] == acc[n]
    ensures n !in acc && FirstMethodNamed(ms, n).Some? ==>
      WithReflected(acc, owner, ms)[n] == Reflected(owner, FirstMethodNamed(ms, n).value, AlwaysStatic)
  {
    if ms != [] {
      var init, last := ms[..|ms| - 1], ms[|ms| - 1];
      assert ms == init + [last];
      WithReflectedLookup(acc, owner, init, n);
      FirstMethodSnoc(init, last, n);
      if last.name != n {
        WithReflectedLookup(acc, owner, init, last.name);
      }
    }
  }

  /** One builder pass: annotated entries win, other public methods of `instance` come in forced static. */
  lemma CreatedTableLookup(cls: ClassInfo, instance: ClassInfo, n: string)
    ensures (n in CreatedTable(cls, instance)) ==
      (LastTagNamed(TagsOf(cls), n).Some? || FirstMethodNamed(instance.publicMethods, n).Some?)
    ensures LastTagNamed(TagsOf(cls), n).Some? ==>
      CreatedTable(cls, instance)[n] == AnnotationEntry(cls.name, LastTagNamed(TagsOf(cls), n).value)
    ensures LastTagNamed(TagsOf(cls), n).None? && FirstMethodNamed(instance.publicMethods, n).Some? ==>
      CreatedTable(cls, instance)[n] ==
        Reflected(cls.name, FirstMethodNamed(instance.publicMethods, n).value, AlwaysStatic)
  {
    AnnotatedTableLookup(cls.name, TagsOf(cls), n);
    WithReflectedLookup(AnnotatedTable(cls.name, TagsOf(cls)), cls.name, instance.publicMethods, n);
  }

  /**
   The cached table agrees with the priority rule: a name is present exactly
   when some source provides it, and its entry comes from the doc block if
   the block has a tag for it, else from the root, else from the extension.
   */
  lemma FacadeTableResolves(cls: ClassInfo, root: Instance, n: string)
    requires Resolvable(root)
    ensures (n in FacadeTable(cls, root)) == Resolve(cls, root, n).Some?
    ensures n in FacadeTable(cls, root) ==> FacadeTable(cls, root)[n] == Resolve(cls, root, n).value
  {
    CreatedTableLookup(cls, root.cls, n);
    if root.cls.name in Extensions {
      CreatedTableLookup(cls, root.accessorResults[Extensions[root.cls.name]], n);
    }
  }

  lemma FacadeTableWellFormed(cls: ClassInfo, root: Instance)
    requires Resolvable(root)
    ensures WellFormed(cls.name, FacadeTable(cls, root))
  {
    var t := FacadeTable(cls, root);
    forall n | n in t
      ensures t[n].Name() == n && t[n].declaringClass == cls.name
      ensures t[n].Reflected? ==> t[n].dispatch == AlwaysStatic
    {
      FacadeTableResolves(cls, root, n);
      LastTagNamedFinds(TagsOf(cls), n);
      FirstMethodNamedFinds(root.cls.publicMethods, n);
      if root.cls.name in Extensions {
        FirstMethodNamedFinds(root.accessorResults[Extensions[root.cls.name]].publicMethods, n);
      }
    }
  }

  /** A method declared by an `@method` tag is always taken from the doc block, even when the root defines it too. */
  lemma AnnotatedWins(cls: ClassInfo, root: Instance, tag: MethodTag)
    requires Resolvable(root)
    requires tag in TagsOf(cls)
    ensures tag.name in FacadeTable(cls, root)
    ensures FacadeTable(cls, root)[tag.name].Annotated?
    ensures LastTagNamed(TagsOf(cls), tag.name).Some?
    ensures FacadeTable(cls, root)[tag.name] ==
      AnnotationEntry(cls.name, LastTagNamed(TagsOf(cls), tag.name).value)
  {
    LastTagNamedFinds(TagsOf(cls), tag.name);
    FacadeTableResolves(cls, root, tag.name);
  }

  /** Every entry that does not come from the doc block comes from a public method and is forced static. */
  lemma ReflectedAlwaysStatic(cls: ClassInfo, root: Instance, n: string)
    requires Resolvable(root)
    requires n in FacadeTable(cls, root) && !FacadeTable(cls, root)[n].Annotated?
    ensures FacadeTable(cls, root)[n].dispatch == AlwaysStatic
    ensures FacadeTable(cls, root)[n].IsStaticCall()
    ensures FacadeTable(cls, root)[n].native.name == n
    ensures FacadeTable(cls, root)[n].native in root.cls.publicMethods
      || (root.cls.name in Extensions
          && FacadeTable(cls, root)[n].native in root.accessorResults[Extensions[root.cls.name]].publicMethods)
  {
    FacadeTableResolves(cls, root, n);
    FirstMethodNamedFinds(root.cls.publicMethods, n);
    if root.cls.name in Extensions {
      FirstMethodNamedFinds(root.accessorResults[Extensions[root.cls.name]].publicMethods, n);
    }
  }

  /**
   For a mapped manager the table is the left-biased union of the two passes:
   no entry of the first pass is replaced, and the key set is the union.
   */
  lemma ExtensionMergeKeepsFirst(cls: ClassInfo, root: Instance)
    requires Resolvable(root) && root.cls.name in Extensions
    ensures var first := CreatedTable(cls, root.cls);
      var second := CreatedTable(cls, root.accessorResults[Extensions[root.cls.name]]);
      && FacadeTable(cls, root).Keys == first.Keys + second.Keys
      && (forall n :: n in first ==> FacadeTable(cls, root)[n] == first[n])
      && (forall n :: n in second && n !in first ==> FacadeTable(cls, root)[n] == second[n])
  {
  }

  /** Without a mapped manager the table is the single pass against the root. */
  lemma NoExtensionSinglePass(cls: ClassInfo, root: Instance)
    requires root.cls.name !in Extensions
    ensures Resolvable(root)
    ensures FacadeTable(cls, root) == CreatedTable(cls, root.cls)
  {
  }

  /**
   A facade without `@method` tags exposes exactly the public methods of the
   root (and of the extension object, for a mapped manager), all forced static.
   */
  lemma NoDocBlockAllReflected(cls: ClassInfo, root: Instance)
    requires Resolvable(root) && TagsOf(cls) == []
    ensures var t := FacadeTable(cls, root);
      && (forall n :: n in t <==>
            (exists m :: m in root.cls.publicMethods && m.name == n)
            || (root.cls.name in Extensions
                && exists m :: m in root.accessorResults[Extensions[root.cls.name]].publicMethods && m.name == n))
      && (forall n :: n in t ==> t[n].Reflected? && t[n].dispatch == AlwaysStatic)
  {
    var t := FacadeTable(cls, root);
    forall n
      ensures n in t <==>
        (exists m :: m in root.cls.publicMethods && m.name == n)
        || (root.cls.name in Extensions
            && exists m :: m in root.accessorResults[Extensions[root.cls.name]].publicMethods && m.name == n)
      ensures n in t ==> t[n].Reflected? && t[n].dispatch == AlwaysStatic
    {
      FacadeTableResolves(cls, root, n);
      FirstMethodNamedFinds(root.cls.publicMethods, n);
      if root.cls.name in Extensions {
        FirstMethodNamedFinds(root.accessorResults[Extensions[root.cls.name]].publicMethods, n);
      }
    }
  }
}
