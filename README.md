# PHPStan Laravel extension: facade method tables and helper return types

This project models two pieces of the PHPStan extension for Laravel in Dafny.

**Facade method tables** (module `Facades`, `facade_methods.dfy`). A class
that extends Laravel's `Facade` forwards static calls to a live "facade root"
object. The class `FacadeMethodExtension` tells PHPStan which methods such a
class exposes. On the first query for a facade it builds a method table and
caches it in its `methods` field. The table comes from three sources, in this
priority:

1. the `@method` tags of the facade's doc block (annotated entries). Each entry
   keeps its parameters in order with their flags. Its variadic flag is the last
   parameter's flag.
2. the public methods of the root's class. Each one is inserted only when its
   name is still absent, and it is always dispatched as static.
3. when the root's class is `AuthManager` or `BroadcastManager`, the public
   methods of the object that `guard()` or `driver()` returns. This second pass
   is merged with PHP's array union, so entries already present are kept.

`CreateMethods` is the loop that builds one pass. It is proved equal to the
specification function `CreatedTable`. `HasMethod` fills and extends the cache
in place, and its contract gives the new cache exactly. The lemma
`FacadeTableResolves` proves that the cached table matches `Resolve`, an
independent statement of the priority rule: doc block, then root, then
extension object. For a class that is not a facade, `HasMethod` leaves the
cache unchanged and still looks the name up in it, as line 98 does. Its contract
gives false when the name is not cached. Only facades are ever cached, so a
non-facade gets false as long as no facade has the same name.

**Helper return types** (module `Helpers`, `helpers.dfy`). The `redirect()`
and `response()` helpers resolve to a class picked by the number of arguments
alone. The tables come from the data providers of the helper test. Their rows
are proved as lemmas.

Reflection, the doc-block parser and the live calls (`getFacadeRoot()`,
`get_class`, `$instance->guard()`) are inputs. A `ClassInfo` gives a class's
name, whether it subclasses `Facade`, its parsed `@method` tags (`None` when
there is no doc block) and its public methods. An `Instance` gives the root's
`ClassInfo` and, for each accessor, the `ClassInfo` of the object it returns.
Types and native signatures are opaque values.

## Model

| member | source | states |
|---|---|---|
| `Facades.FacadeMethodExtension.constructor` | src/FacadeMethodExtension.php:37 | the cache starts empty and satisfies the table invariant |
| `Facades.FacadeMethodExtension.HasMethod` | src/FacadeMethodExtension.php:73-99 | first query for a facade stores `FacadeTable` under its name. A cached class or a non-facade leaves the cache unchanged. The result is true iff the name is a key of the cached table, so it is false for a non-facade whose name is not cached. Every cached entry is filed under its own name, belongs to the facade, and reflected entries are forced static |
| `Facades.FacadeMethodExtension.GetMethod` | src/FacadeMethodExtension.php:104-107 | requires the cached presence that `HasMethod` reports. Returns the entry for that name, declared by the facade, static when reflected |
| `Facades.CreateMethods` | src/FacadeMethodExtension.php:116-166 | the two loops (tags with their parameter loop, then public methods with `continue`) build exactly `CreatedTable`: annotated entries, then forced-static entries for names still absent |
| `Facades.LeftUnion` | src/FacadeMethodExtension.php:90 | PHP `+=`: key set is the union, left entries are kept, right entries only fill absent keys |
| `Facades.ParametersCopied` | src/FacadeMethodExtension.php:131-140 | annotated parameters have the tag's length and order, and copy name, type, by-ref, optional and variadic flags |
| `Facades.AnnotationEntryFromTag` | src/FacadeMethodExtension.php:142-149 | an annotated entry takes its name, return type and static flag from the tag and belongs to the facade. Its variadic flag is that of the tag's last parameter |
| `Facades.LastParameterDecides` | src/FacadeMethodExtension.php:174-184 | empty list gives false. Otherwise the result is the last parameter's flag whatever the earlier ones are |
| `Facades.EarlierVariadicIgnored` | src/FacadeMethodExtension.php:180-183 | a variadic first parameter followed by a non-variadic one is not detected, though some parameter is variadic |
| `Facades.AnnotatedTableLookup` | src/FacadeMethodExtension.php:130-150 | the annotated pass holds a name iff some tag has it, with the entry of the last such tag |
| `Facades.WithReflectedLookup` | src/FacadeMethodExtension.php:153-163 | the reflected pass keeps every existing entry and adds, for each absent name, the first public method of that name, forced static |
| `Facades.CreatedTableLookup` | src/FacadeMethodExtension.php:116-166 | one pass holds a name iff a tag or a public method has it. The tag's entry wins, otherwise the method's forced-static entry |
| `Facades.FacadeTableResolves` | src/FacadeMethodExtension.php:82-94 | the cached table holds exactly the names `Resolve` provides, with `Resolve`'s entry: doc block, then root, then extension object |
| `Facades.FacadeTableWellFormed` | src/FacadeMethodExtension.php:142-162 | every entry of a built table is keyed by its own name, declared by the facade, and forced static when reflected |
| `Facades.AnnotatedWins` | src/FacadeMethodExtension.php:153-157 | a name with an `@method` tag maps to the annotated entry even when the root or extension object defines it |
| `Facades.ReflectedAlwaysStatic` | src/FacadeMethodExtension.php:158-162 | a non-annotated entry wraps a public method of the root or extension object with that name, forced static |
| `Facades.ExtensionMergeKeepsFirst` | src/FacadeMethodExtension.php:87-94 | for a mapped manager, the keys are the union of both passes. First-pass entries are never overwritten, and second-pass entries fill only absent names |
| `Facades.NoExtensionSinglePass` | src/FacadeMethodExtension.php:82-87 | for an unmapped root class the table is the single pass against the root |
| `Facades.NoDocBlockAllReflected` | src/FacadeMethodExtension.php:120-163 | without tags, the keys are exactly the public method names of root and extension object, and every entry is reflected and forced static |
| `Helpers.ReturnType` | tests/HelpersReturnTypeExtensionTest.php:26-62 | the result is an object type naming one of the helper's two classes. It is the factory class exactly when there are no arguments |
| `Helpers.SupportedHelpers` | tests/HelpersReturnTypeExtensionTest.php:44-71 | `redirect` and `response` are supported. That no other name is supported is an assumption, listed under Left out |
| `Helpers.OnlyCountMatters` | tests/HelpersReturnTypeExtensionTest.php:31-60 | argument lists of equal length give the same type, whatever their values |
| `Helpers.RedirectDataProvider` | tests/HelpersReturnTypeExtensionTest.php:26-52 | every row of the redirect table holds: 0 arguments give `Redirector`, 1 to 4 give `RedirectResponse` |
| `Helpers.ResponseDataProvider` | tests/HelpersReturnTypeExtensionTest.php:54-79 | every row of the response table holds: 0 arguments give `ResponseFactory`, 1 to 3 give `Response` |

## Left out

- `bootstrap.php` locates and boots the Laravel application. That is file-system I/O and is not part of this model.
- `setBroker` and `Broker::getClass` are not modelled. The model receives class reflections directly as `ClassInfo` values.
- The constructor's collaborators (`MethodReflectionFactory`, `PhpDocStringResolver`) are not modelled. A reflected entry is `Reflected(facade, native method, AlwaysStatic)`, and the parsed tags are an input.
- The `NameScope` built from the facade's namespace only affects how the parser resolves type names. Parsing and its failures are outside the model.
- A null facade root, or a mapped manager without its accessor, makes the PHP code fail with no fallback. The code has no annotations-only fallback for an unresolvable root. `HasMethod` therefore requires `Resolvable(root)` when it builds a table. The model does not capture a failure part-way: the first pass is stored at src/FacadeMethodExtension.php:82 before the accessor is called at line 89. If that call throws, or returns null so that `get_class` fails, the root-only table stays cached. Later queries then never retry the extension pass, because the check at line 76 succeeds.
- PHP array-key details are not modelled: integer-like string keys become integers in PHP. PHP dispatches method calls case-insensitively, but this table's keys are exact strings, in the code (lines 76, 98, 155) and in the model alike.
- The helper implementation (`HelpersReturnTypeExtension`) is not part of this model. The resolver is modelled from the test's data providers.
- Facades.FacadeMethodExtension.HasMethod: proves false for a non-facade class only when its name is not cached. The model assumes a class name identifies one class, as in PHP, so a non-facade never shares a name with a cached facade.
- Helpers.SupportedHelpers: states that no name other than `redirect` and `response` is supported. The tests only assert that these two are supported, so the exclusion is an assumption.
- Helpers.ReturnType: gives the concrete class for every non-zero argument count. The tests fix only counts 1 to 4 for `redirect` and 1 to 3 for `response`, so larger counts are an assumption.
- The per-class cache needs no locking, because the code runs single-threaded.
