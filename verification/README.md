# Verified model of OpenTofu's address, check, cloud and formatting logic

This project models six parts of OpenTofu in Dafny and proves laws about them.

* **Moves** (`MoveEndpoints`, `MoveAlgebra`, `UnifyEndpoints`, `MoveMeaning`, `MoveExecution`, `MoveOrder`,
  `MoveGroups`, `MoveSchedules` with `Schedules`, `MoveOutcomes`). A `moved` statement is a pair of patterns over
  module and resource addresses. The code selects with a pattern, rewrites with it, and tests patterns statically
  against each other. The model shows that the three views agree on all addresses, that moves can be undone, that
  executing statements conserves the objects of a state, exactly when one statement waits for another and when the
  order of two is immaterial, and that all schedules which respect the dependencies agree if statements without a
  dependency commute.
* **Addresses as text** (`Quoting`, `Traversals`, `AddressText`, `TargetParsing`, `Containment`, `Ordering`,
  `AddressMap`). Texts serve as map keys and as an equality test, so printing has to be injective even though
  quoted keys may hold dots, brackets, quotes and `${`. Parsing undoes printing exactly where it can, targeting
  is a partial order, sorting is a strict total order, and the keyed maps and sets behave as plain ones.
* **Module sources** (`ModuleSources`). Relative resolution is path composition with an escape check at each hop.
* **Checks** (`CheckState`, `CheckTable`). A write-once table of statuses filled by reports in any order.
* **Cloud** (`ConfirmProtocol`, `CloudState`). The confirmation protocol as interleaved steps of a prompt and a
  poller, and the state manager with lineage, serial and snapshot against a server that may fail.
* **Formatter** (`Formatter`). Unwrapping of `"${ ... }"` decided by a flat quote counter.

Where the code is pure the model is functions and lemmas. Where it loops or changes fields, a method or a class
follows the code and its contract ties it to a function, and the laws are proved about that function. A panic is
`None` or a precondition; diagnostics are reduced to whether there are any. Strings are sequences of Unicode
scalar values, integer keys are 64-bit, and which characters are printable is a parameter that need only accept
`{`. The wildcard key of move patterns has a type of its own, so addresses hold concrete keys only.

## Findings

These are places where a law one might expect does not hold of the code; each is given
with the exact condition under which it holds.

* Printed addresses parse back unless the address is the root module, holds a negative integer key, or is a
  managed resource whose type is `module`, `data` or `ephemeral` (`TargetParsing.TextRoundTrip`).
* Resolution of module sources is associative for a relative last source; for an absolute one it holds exactly
  when the first hop does not climb above the package root (`ModuleSources.ResolveAbsoluteLast`,
  `ModuleSources.AbsoluteLastFails`).
* A multi-line expression that starts and ends with unrelated parentheses, such as `(a) +` and `(a)` on two lines,
  is unwrapped without being enclosed, although the comment in the code says parentheses are ensured
  (`Formatter.MultiLineEnclosed`, `Formatter.UnrelatedParensAreNotEnclosed`).
* An interpolation of nothing but newlines makes trimming panic (`Formatter.FormatPanics`). The panic belongs to
  the function: the formatting command rejects files with syntax errors first (`internal/command/fmt.go:195-199`),
  and such an interpolation is one.
* When asking the user fails, confirmation returns without cancelling its context and the poller keeps running;
  this happens exactly when asking failed, the operation was not stopped and the poller sent nothing
  (`ConfirmProtocol.PollerStopsUnlessAskingFailed`, `ConfirmProtocol.FailedQuestionLeavesPollerRunning`).
* A first persist stores the pending write exactly when the server has no snapshot or one with that content; any
  other snapshot has its old content uploaded again and the write is dropped (`CloudState.FirstPersistDropsWrite`,
  `CloudState.DroppedWrite`). A second persist is idle only with a non-empty lineage and a non-zero serial
  (`CloudState.SecondPersistIsIdle`). Serials stop growing where the counter wraps, and already at 2^63 as the API
  carries them (`CloudState.SerialGrows`).
* The order of check reports matters exactly when the first reports about the objects of some configuration object
  differ (`CheckState.OrderMattersExactly`, `CheckState.DisagreeingObjectsDependOnOrder`).
* Two move statements of which neither depends on the other may still compete for one destination, `t.x` to `t.z`
  and `t.y` to `t.z`: whichever is executed first blocks the other, and statements are executed before they are
  validated (`internal/tofu/context_plan.go:770` and `812`). See `MoveOrder.SharedDestinationDependsOnOrder`.
* A statement that only re-indexes modules is exempt from waiting for statements of inner modules. With
  `module.x.module.y[0]` to `module.x.module.y[1]` in the root and `module.y[0].t.a` to `module.y[0].t.b` in module
  `x`, neither depends on the other and the order of execution shows (`MoveOrder.ExemptPairDependsOnOrder`). The
  exemption is harmless where the re-indexed modules lie outside the module of the inner statement
  (`MoveOrder.ExemptionAbove`).
* For any two statements the order is immaterial exactly when they are compatible
  (`MoveOrder.CommuteExactlyWhenCompatible`). For statements of which neither depends on the other and that start
  from different addresses, exempt or not, this can be read off the endpoints: one of them does nothing, or no two
  of their ends are related (`MoveOrder.IndependentStatementsCommute`, `MoveGroups.IndependentGroupsCommute`,
  `MoveSchedules.IndependentExecutionsCommute`).
* What one statement does is independent of the order in which the modules of a state are visited exactly if its
  ends are unrelated or the same; for a module that moves into itself, such as `module.a` to
  `module.a.module.b`, the outcome varies with the iteration order of a map (`MoveSchedules.VisitOrderExactly`,
  `MoveSchedules.IntoItselfDependsOnOrder`).
* Moving a module does not always move the modules nested in it: each is blocked on its own
  (`MoveSchedules.NestedModuleStaysBehind`). A statement with unrelated ends takes along everything it starts from
  exactly when nothing is at a destination of one of these objects (`MoveSchedules.MovesAllExactly`).
* Nesting of move endpoints is not transitive (`MoveAlgebra.NestingNotTransitive`). It composes exactly when the
  outer and the inner endpoint agree at the wildcard steps of the one between them (`MoveAlgebra.NestingComposes`),
  and it is acyclic all the same.

## Model

| member | source | states |
|---|---|---|
| `MoveEndpoints.SynthModuleInstance` | internal/addrs/move_endpoint_module.go:224-246 | the appending loop builds the endpoint's pattern: wildcard steps for the declaring module, then the subject's own steps, with a wildcard last step for a call |
| `MoveEndpoints.SelectsModule` | internal/addrs/move_endpoint_module.go:256-279 | the scan accepts exactly the module instances of the pattern's length that match it step by step |
| `MoveEndpoints.SelectsResource` | internal/addrs/move_endpoint_module.go:283-310 | selects exactly resources in a selected module with the endpoint's own resource part, ignoring the instance key |
| `MoveEndpoints.ModuleInstanceCanMatch` | internal/addrs/move_endpoint_module.go:317-332 | the scan decides unification of two patterns with wildcards on either side |
| `MoveEndpoints.MatchModuleInstancePrefix` | internal/addrs/move_endpoint_module.go:452-464 | splits an address at the declaring module exactly when its first names are that module's |
| `MoveEndpoints.MoveModule` | internal/addrs/move_endpoint_module.go:477-554 | the slicing and appending computes: keep declaring prefix and suffix, replace what the pattern matched, and nothing for the root or a mismatch |
| `MoveEndpoints.MoveResource` | internal/addrs/move_endpoint_module.go:567-627 | a resource moves with its module, or to the "to" resource when the whole-resource pattern selects it |
| `MoveEndpoints.MoveResourceInstance` | internal/addrs/move_endpoint_module.go:640-711 | an instance moves with its module, with its resource keeping its key, or alone when exactly named |
| `MoveMeaning.ModuleMoveExactly` | internal/addrs/move_endpoint_module.go:466-554 | a module instance moves if and only if it is an instance of the declaring module, then the "from" subject (any key for a call), then a remainder; only the subject is replaced, and a call keeps its key |
| `MoveMeaning.ResourceMoveExactly` | internal/addrs/move_endpoint_module.go:556-627 | a resource moves with its module, or exactly if it is the "from" resource in an instance of the declaring module, to the "to" resource in that instance |
| `MoveMeaning.InstanceMoveExactly` | internal/addrs/move_endpoint_module.go:629-711 | an instance moves with its module or resource keeping its key, or exactly if it is the "from" instance in an instance of the declaring module |
| `MoveAlgebra.UnificationExact` | internal/addrs/move_endpoint_module.go:312-332 | patterns unify if and only if some address is an instance of both |
| `MoveAlgebra.ModuleDependencyExact` | internal/addrs/move_endpoint_module.go:340-435 | for a module-kind endpoint, nesting or chaining holds if and only if some selected module instance would be moved by it |
| `MoveAlgebra.DependencyExact` | internal/addrs/move_endpoint_module.go:340-435 | for every pair of endpoint kinds, nesting or chaining holds if and only if a statement from the one would move some object the other refers to |
| `MoveAlgebra.ModuleChainExact` | internal/addrs/move_endpoint_module.go:334-379 | chaining of module-kind endpoints is symmetric and means that some module instance is selected by both |
| `MoveAlgebra.ModuleMoveInvertible` | internal/addrs/move_endpoint_module.go:477-554 | moving a module instance back along the reversed statement restores it |
| `MoveAlgebra.ResourceMoveInvertible` | internal/addrs/move_endpoint_module.go:567-627 | the same for resources |
| `MoveAlgebra.InstanceMoveInvertible` | internal/addrs/move_endpoint_module.go:640-711 | the same for resource instances |
| `MoveAlgebra.RekeyNeverMerges` | internal/addrs/move_endpoint_module.go:466-711 | rekeying any finite set of addresses by one statement keeps their number, and the reversed statement gives back exactly those that moved |
| `MoveAlgebra.LevelsAgree` | internal/addrs/move_endpoint_module.go:640-660 | under a module or whole-resource statement an instance goes where its resource goes and keeps its key |
| `MoveAlgebra.DescendantsFollow` | internal/addrs/move_endpoint_module.go:502-554 | every descendant of a moved module moves with its suffix unchanged |
| `MoveAlgebra.ContentsFollow` | internal/addrs/move_endpoint_module.go:567-653 | resources and instances at any depth inside a moved module follow it otherwise unchanged |
| `MoveAlgebra.NestingDeepens` | internal/addrs/move_endpoint_module.go:384-435 | path length and then kind of subject strictly grow from container to contained |
| `MoveAlgebra.NestingAcyclic` | internal/addrs/move_endpoint_module.go:384-435 | no chain of nested endpoints, of any length, comes back to its start |
| `MoveAlgebra.NestingNotTransitive` | internal/addrs/move_endpoint_module.go:384-435 | three endpoints for which nesting is not transitive |
| `MoveAlgebra.NestingComposes` | internal/addrs/move_endpoint_module.go:384-435 | of endpoints nested one in the next, the first is nested in the last if and only if the two unify at every wildcard step of the middle one |
| `UnifyEndpoints.UnifyTotal` | internal/addrs/move_endpoint.go:174-301 | unification fails exactly for a module paired with a resource and otherwise gives one address type and declaring module, without reaching a panic |
| `UnifyEndpoints.UnifiedKinds` | internal/addrs/move_endpoint.go:174-301 | a pair is about whole calls or whole resources exactly if neither side has a key at its end, and about what was written otherwise |
| `UnifyEndpoints.ParsedIsWellFormed` | internal/addrs/move_endpoint.go:130-155 | a parsed module endpoint names at least one module step |
| `UnifyEndpoints.ParsedStatement` | internal/addrs/move_endpoint.go:130-216 | whatever is parsed and unified meets the demands of the move operations, so none of their type assertions can fail |
| `UnifyEndpoints.UnifiedModuleStatementApplies` | internal/addrs/move_endpoint.go:174-271 | in every instance of the declaring module, the unified statement moves the module written as "from" to the one written as "to" |
| `UnifyEndpoints.UnifiedInstanceStatementApplies` | internal/addrs/move_endpoint.go:174-271 | the same for resource instances |
| `MoveExecution.MoveResults.RecordOldAddr` | internal/refactoring/move_execute.go:75-87 | recording a move keeps the first address of a chain and drops the intermediate entry |
| `MoveExecution.ExecutionConserves` | internal/refactoring/move_execute.go:33-193 | over any sequence of relocations, blocked ones included, no object is lost, duplicated or altered and each recorded old address is the original one |
| `MoveExecution.OldAddressesAreAll` | internal/refactoring/move_execute.go:338-347 | the old addresses of the resulting state are exactly the addresses of the initial one |
| `MoveExecution.RelocationUndone` | internal/refactoring/move_execute.go:154-176 | the reversed statement applied at the destination restores the state |
| `MoveOrder.ChainSymmetric` | internal/addrs/move_endpoint_module.go:334-379 | chaining is symmetric for every pair of endpoint kinds |
| `MoveOrder.RelatedExact` | internal/addrs/move_endpoint_module.go:334-435 | two endpoints are nested or chained, in either direction, if and only if some resource instance lies within both |
| `MoveOrder.NestedExact` | internal/addrs/move_endpoint_module.go:381-435 | one endpoint is nested within another if and only if they have an object in common and the first is deeper |
| `MoveOrder.ReIndexExactly` | internal/addrs/move_endpoint_module.go:713-744 | a statement is a re-indexing if and only if it is about module instances and leaves the names of every module it moves unchanged |
| `MoveOrder.DependsExactly` | internal/refactoring/move_execute.go:229-277 | a statement depends on another if and only if that other ends where it starts, or they have a common start and the other's is deeper, or a common end and the other's is less deep; a re-indexing around the other only if both select a common module there |
| `MoveOrder.CommuteExactlyWhenCompatible` | internal/refactoring/move_execute.go:96-189 | for any two statements the two orders of execution give the same state and change records, blocked moves included, if and only if, of all objects they displace, they agree on common ones, never compete for a destination and never put one where the other finds it |
| `MoveOrder.CommuteExactlyWhenAgreeing` | internal/refactoring/move_execute.go:96-189 | for statements of which neither starts where the other ends that means: both treat alike every common start and every common destination |
| `MoveOrder.IndependentStatementsCommute` | internal/refactoring/move_execute.go:229-277 | for statements of which neither depends on the other and that do not share their start, exempt re-indexings included, the order of execution is immaterial if and only if one of them does nothing or no two of their ends are related; without an exemption, if and only if their destinations do not chain |
| `MoveOrder.CompatibleBatchesCommute` | internal/refactoring/move_execute.go:96-189 | executing compatible statements on any lists of objects, one list after the other, does not depend on the order of the two |
| `MoveOrder.SharedDestinationDependsOnOrder` | internal/refactoring/move_execute.go:154-176 | two independent statements with one destination for which the order of execution shows |
| `MoveOrder.ToZIsWritten` | internal/addrs/move_endpoint.go:174-301 | those two are statements that unification makes of `moved` blocks |
| `MoveOrder.ExemptPairDependsOnOrder` | internal/refactoring/move_execute.go:258-272 | an outer re-indexing and an inner statement of which neither depends on the other because the outer one is exempt, and for which the order of execution shows |
| `MoveOrder.ExemptPairIsWritten` | internal/addrs/move_endpoint.go:174-301 | the re-indexing and the inner statement are ones that unification makes of `moved` blocks |
| `MoveOrder.ExemptionAbove` | internal/refactoring/move_execute.go:258-272 | an exempt statement that re-indexes modules outside the one holding the inner statement has that statement depend on it |
| `MoveOrder.IndependentAddressesCommute` | internal/refactoring/move_execute.go:229-277 | without regard to occupied destinations, both orders of independent statements with different starts lead every address to the same place |
| `MoveGroups.GroupMovesWhole` | internal/refactoring/move_execute.go:104-184 | a module instance without its nested modules, a resource or an instance moves as a whole or, if anything is at its destination, not at all: every instance arrives with its value and its original address on record, and everything else stays |
| `MoveGroups.IterationImmaterial` | internal/refactoring/move_execute.go:119-133 | the order in which the instances of an object are iterated shows neither in the state nor in the change records |
| `MoveGroups.IndependentGroupsCommute` | internal/refactoring/move_execute.go:96-277 | the same as for single relocations with objects moved and blocked as units, exempt re-indexings included |
| `MoveSchedules.VisitOrderExactly` | internal/refactoring/move_execute.go:98-189 | the order in which one statement visits the modules and resources of a state is immaterial if and only if its two ends are unrelated or the same |
| `MoveSchedules.IntoItselfDependsOnOrder` | internal/refactoring/move_execute.go:98-133 | a module that moves into itself, for which the order of visiting shows |
| `MoveSchedules.StatementOutcome` | internal/refactoring/move_execute.go:98-189 | a statement with unrelated ends takes along exactly the objects with nothing at the destination of their module, resource or instance |
| `MoveSchedules.MovesAllExactly` | internal/refactoring/move_execute.go:98-189 | it takes everything it starts from, nested modules included, to its destination if and only if nothing in the state is at a destination of one of these objects |
| `MoveSchedules.NestedModuleStaysBehind` | internal/refactoring/move_execute.go:108-133 | a nested module that is left behind when the module around it moves |
| `MoveSchedules.IndependentExecutionsCommute` | internal/refactoring/move_execute.go:96-277 | whole statements of which neither depends on the other, with unrelated ends and different starts, can be executed in either order if and only if they have nothing in common |
| `MoveSchedules.SchedulesAgree` | internal/refactoring/move_execute.go:95-96 | any two orders of the same statements that respect the dependencies end in the same state and records, if statements without a dependency between them commute |
| `MoveSchedules.DisjointSchedulesAgree` | internal/refactoring/move_execute.go:95-277 | for statements with unrelated ends it is enough that those without a dependency between them have nothing in common |
| `MoveOutcomes.ObjectFollows` | internal/refactoring/move_execute.go:95-189 | in any schedule an object that is never blocked ends with its value where the statements in turn take it |
| `MoveOutcomes.InnerActsFirst` | internal/refactoring/move_execute.go:237-255 | in every schedule that respects the dependencies, an object in the start of an inner and an outer statement ends where the inner and then the outer one take it |
| `MoveOutcomes.OuterArrivesFirst` | internal/refactoring/move_execute.go:237-255 | of a statement that ends inside the destination of another, the outer one acts first and both objects arrive; the other way round the outer object would stay behind |
| `MoveOrder.ChainedStatementsDepend` | internal/refactoring/move_execute.go:229-277 | if one statement moves some object to where another starts, the other is reported to depend on it, unless it is an exempt re-indexing; one that re-indexes outside the module of the first is ordered before it |
| `Quoting.ToHCLQuotedString` | internal/addrs/instance_key.go:219-263 | the rune loop writes the escaped text between quotes |
| `Quoting.DecodeUndoesEscape` | internal/addrs/instance_key.go:219-263 | decoding template-literal escapes undoes the escaping of every string, up to the closing quote and whatever follows |
| `Quoting.QuotedRoundTrip` | internal/addrs/instance_key.go:81-86 | a quoted key reads back as itself and ends where it ends |
| `Quoting.HexRoundTrip` | internal/addrs/instance_key.go:247-254 | zero-padded hexadecimal digits read back as the number |
| `Quoting.EscapeIsIdentity` | internal/addrs/instance_key.go:219-263 | a text is written as it is exactly if all its characters are printable and none is a quote, a backslash or a template introducer, and gets longer otherwise |
| `Quoting.FixedEscapes` | internal/addrs/instance_key_test.go:38-68 | the escapes of quotes, backslashes, line breaks, tabs and template introducers in front of any text |
| `Traversals.ScanRendered` | internal/addrs/targetable.go:25-28 | scanning the text of printable steps gives back the steps |
| `Traversals.RenderInjective` | internal/addrs/targetable.go:25-28 | the text of a traversal determines it |
| `AddressText.ModuleInstanceString` | internal/addrs/module_instance.go:263-286 | the builder loop with its separator writes the text of the module's steps |
| `AddressText.AbsResourceTextIsRendered` | internal/addrs/resource.go:26-39 | the text of a resource is its module path, mode keyword, type and name as traversal steps |
| `AddressText.AbsInstanceTextIsRendered` | internal/addrs/resource.go:358-363 | the same with the instance key |
| `AddressText.ModuleTextInjective` | internal/addrs/module_instance.go:263-292 | module instances with equal texts are equal |
| `AddressText.AbsResourceTextInjective` | internal/addrs/resource.go:241-279 | resources with equal texts are equal, for any type name |
| `AddressText.AbsInstanceTextInjective` | internal/addrs/resource.go:358-415 | resource instances with equal texts are equal |
| `AddressText.KeyedInstanceIsNoResource` | internal/addrs/resource.go:325-342 | a keyed instance never has the text of a resource |
| `TargetParsing.ParseModuleInstancePrefix` | internal/addrs/module_instance.go:100-173 | the loop reads the longest module path and hands on the rest starting with a root name, or fails on bad syntax |
| `TargetParsing.RemainderIsAbsolute` | internal/addrs/module_instance.go:155-173 | after the prefix is read without error the remainder has a root name, so asking for it cannot panic |
| `TargetParsing.ParseTargetTraversal` | internal/addrs/parse_target.go:32-68 | the entry point with its loop computes the target function |
| `TargetParsing.AcceptedReRenders` | internal/addrs/parse_target.go:32-127 | every absolute traversal that is accepted is exactly the traversal of the address it gives |
| `TargetParsing.ParseUndoesSteps` | internal/addrs/parse_target.go:32-127 | parsing the traversal of an address gives it back if and only if its managed type is no keyword |
| `TargetParsing.TextRoundTrip` | internal/addrs/parse_target.go:246-273 | parsing the text of an address gives it back if and only if it is not the root, has no negative key and no keyword type |
| `TargetParsing.InstanceTextRoundTrip` | internal/addrs/parse_target.go:353-395 | resource instance addresses, keyless ones included, survive printing and parsing if and only if they hold no negative key and no keyword type |
| `Containment.ModuleTargetContains` | internal/addrs/module_instance.go:450-476 | the scan accepts exactly longer or equal paths that agree, with a keyless last step standing for every instance |
| `Containment.CoversExactly` | internal/addrs/module_instance.go:450-476 | a module target contains exactly the paths that go on from it or, without a key at its end, from any instance of its last call |
| `Containment.TextContainmentExact` | internal/addrs/resource.go:213-342 | comparing texts is comparing addresses in every pair of target kinds |
| `Containment.ReachedExactly` | internal/addrs/targetable.go:13-19 | which resource instances a target reaches, said without comparing texts |
| `Containment.ContainsReflexive` | internal/addrs/targetable.go:13-19 | a target contains itself |
| `Containment.ContainsTransitive` | internal/addrs/module_instance.go:418-490 | containment is transitive on the parser's range |
| `Containment.ContainsAntisymmetric` | internal/addrs/module_instance.go:418-490 | containment is antisymmetric on the parser's range |
| `Containment.ContainmentIsInclusion` | internal/addrs/targetable.go:13-19 | one target contains another if and only if it reaches every resource instance the other reaches |
| `Containment.KeylessInstanceIsNotOrdered` | internal/addrs/parse_target.go:53-62 | outside the parser's range a keyless instance and its resource contain each other |
| `Ordering.KeyTotal` | internal/addrs/instance_key.go:149-175 | exactly one of less, equal, greater for instance keys |
| `Ordering.KeyTransitive` | internal/addrs/instance_key.go:149-175 | the key order is transitive |
| `Ordering.KeyOrder` | internal/addrs/instance_key.go:149-175 | no key comes before any key, integers before texts, integers by value and texts by their first difference, a prefix first |
| `Ordering.ModuleInstanceLess` | internal/addrs/module_instance.go:313-330 | the loop computes: shorter first, then the first differing step |
| `Ordering.ModuleTotal` | internal/addrs/module_instance.go:298-330 | exactly one of less, equal, greater for module instances |
| `Ordering.ModuleTransitive` | internal/addrs/module_instance.go:313-330 | the module order is transitive |
| `Ordering.ModuleOrder` | internal/addrs/module_instance.go:313-330 | the shorter path comes first, then the one smaller in name or key at the first differing step |
| `Ordering.ResourceTotal` | internal/addrs/resource.go:41-59 | exactly one of less, equal, greater for resources |
| `Ordering.ResourceTransitive` | internal/addrs/resource.go:45-59 | the resource order is transitive |
| `Ordering.ResourceOrder` | internal/addrs/resource.go:45-59 | ephemeral before data before managed, then by type, then by name |
| `Ordering.AbsInstanceTotal` | internal/addrs/resource.go:385-401 | exactly one of less, equal, greater for absolute resource instances |
| `Ordering.AbsInstanceTransitive` | internal/addrs/resource.go:391-401 | the order of absolute resource instances is transitive |
| `Ordering.AbsInstanceOrder` | internal/addrs/resource.go:391-401 | by module, then by resource, then by key |
| `Ordering.SortedKeepsResourcesTogether` | internal/addrs/resource.go:389-401 | in any sorted list the instances of one resource are contiguous |
| `AddressMap.UniqueKeyInjective` | internal/addrs/unique_key.go:8-14 | equal unique keys mean equal addresses |
| `AddressMap.AddrMap.Put` | internal/addrs/map.go:45-48 | the structure becomes the plain map with the address bound to the value |
| `AddressMap.AddrMap.Remove` | internal/addrs/map.go:58-61 | the structure becomes the plain map without the address |
| `AddressMap.AddrMap.GetOk` | internal/addrs/map.go:72-76 | lookup in the plain map |
| `AddressMap.AddrMap.Len` | internal/addrs/map.go:87-89 | the number of addresses in the plain map |
| `AddressMap.AddrMap.Keys` | internal/addrs/map.go:106-120 | a new set of exactly the addresses in the plain map |
| `AddressMap.AddrSet.Add` | internal/addrs/set.go:48-50 | adds the address to the plain set |
| `AddressMap.AddrSet.Remove` | internal/addrs/set.go:54-56 | removes the address from the plain set |
| `AddressMap.AddrSet.Union` | internal/addrs/set.go:60-69 | a new set that is the union of the plain sets |
| `AddressMap.AddrSet.Intersection` | internal/addrs/set.go:73-86 | a new set that is the intersection of the plain sets |
| `ModuleSources.FoldConcat` | internal/addrs/module_source_resolve.go:18-72 | path cleaning is a homomorphism: the normal form of a joined path is composed from the normal forms of its parts |
| `ModuleSources.ComposeAssociative` | internal/addrs/module_source_resolve.go:18-72 | composition of relative paths is associative |
| `ModuleSources.WalkIsNormal` | internal/addrs/module_source_resolve.go:60-72 | the normal form of a path says where walking along its segments leads from any directory, and when it leaves the root |
| `ModuleSources.ParsedLocalIsValid` | internal/addrs/module_source.go:147-181 | every accepted local source is in normal form |
| `ModuleSources.ParseLocalIdempotent` | internal/addrs/module_source.go:147-190 | parsing a parsed local source changes nothing |
| `ModuleSources.ResolveLocal` | internal/addrs/module_source_resolve.go:25-31 | a local source resolved against another is their composition and never fails |
| `ModuleSources.ResolveSubdir` | internal/addrs/module_source_resolve.go:60-72 | joining to a subdirectory gives the composed path if it stays inside the package, and is rejected otherwise |
| `ModuleSources.ResolveIsWalking` | internal/addrs/module_source_resolve.go:33-72 | resolving inside a package is walking from its subdirectory: the source keeps kind and package and gets the directory where the walk ends, and is rejected exactly if the walk leaves the package |
| `ModuleSources.ResolveLocalIsWalking` | internal/addrs/module_source_resolve.go:18-31 | a relative source resolved against another leads, from every directory, where walking along the one and then the other leads; an absolute source stays what it is |
| `ModuleSources.ResolveKeepsValid` | internal/addrs/module_source_resolve.go:18-72 | what is resolved is valid again: a subdirectory is empty or a valid path inside the package |
| `ModuleSources.ResolveAssociative` | internal/addrs/module_source_resolve.go:18-72 | following b and then c from a equals following b-then-c from a, rejection included |
| `ModuleSources.ResolveAbsoluteLast` | internal/addrs/module_source_resolve.go:18-22 | for an absolute last source the law holds if and only if the first hop was accepted, which between valid sources means that it does not climb above the package root |
| `ModuleSources.AbsoluteLastFails` | internal/addrs/module_source_resolve.go:18-22 | from a package root, `../x` and then any absolute source breaks the law |
| `ModuleSources.RejectedExactlyWhenEscaping` | internal/addrs/module_source_resolve.go:60-72 | a hop is rejected if and only if it climbs above the package root |
| `CheckTable.State.ReportCheckableObjects` | internal/checks/state_report.go:24-58 | fills the table of the reported objects with unknown statuses, or leaves it if already reported |
| `CheckTable.State.ReportCheckResult` | internal/checks/state_report.go:70-75 | sets the one unknown status reported on and nothing else |
| `CheckTable.State.ReportCheckFailure` | internal/checks/state_report.go:85-95 | sets the status to failed and records the message |
| `CheckTable.State.RecordInPlace` | internal/checks/state_report.go:99-121 | overwrites one entry of one status list |
| `CheckTable.State.AggregateCheckStatus` | internal/checks/state.go:144-186 | the counting loops compute the aggregate status |
| `CheckTable.State.ObjectCheckStatus` | internal/checks/state.go:193-229 | the counting loops compute the object's status |
| `CheckTable.State.ObjectFailureMessages` | internal/checks/state.go:240-274 | a sorted list holding each non-empty message once per check of the object that reported it, and nothing else |
| `CheckTable.CountStatuses` | internal/checks/state.go:164-183 | each counter is positive exactly when some check has that status |
| `CheckState.StepStatus` | internal/checks/state_report.go:99-121 | a report changes only the position it is about, which must be unknown |
| `CheckState.KnownStatusIsFinal` | internal/checks/state_report.go:60-121 | over any run a known status never changes |
| `CheckState.PanicFreeExactly` | internal/checks/state_report.go:24-121 | a run of reports is free of panics if and only if each report is about a known configuration object, the objects or an expected check of the objects first reported for it, and a check with no known result |
| `CheckState.RunMeaning` | internal/checks/state_report.go:24-121 | any panic-free run leaves the table holding exactly the results, messages and objects that were reported |
| `CheckState.FirstReportWins` | internal/checks/state_report.go:32-36 | after any panic-free run the known objects of a configuration object are those of the first report about them |
| `CheckState.OrderMattersExactly` | internal/checks/state_report.go:24-121 | two panic-free runs making the same reports end in the same state if and only if their first object reports agree for every configuration object |
| `CheckState.OrderIndependent` | internal/checks/state_report.go:24-121 | two panic-free runs making the same reports in any order end in the same state, given that object reports do not contradict each other |
| `CheckState.DisagreeingObjectsDependOnOrder` | internal/checks/state_report.go:32-36 | two disagreeing object reports end in different states in the two orders |
| `CheckState.AggregateIsMaximum` | internal/checks/state.go:144-186 | once objects are reported the aggregate is the maximum of the objects' statuses under pass, unknown, fail, error |
| `CheckState.ObjectStatusMeaning` | internal/checks/state.go:276-294 | an object's status is an error if a check has one, or else a failure, or else unknown, and a pass exactly if all checks pass |
| `CheckState.AggregateMeaning` | internal/checks/state.go:276-294 | the same of the aggregate over all positions of a configuration object |
| `CheckState.AggregateOfReports` | internal/checks/state.go:144-186 | after any run the aggregate is an error exactly if one was reported, a failure exactly if one and no error was reported, and otherwise unknown as long as objects or some result are missing, and then a pass |
| `CheckState.AggregateOverRun` | internal/checks/state.go:144-186 | over any run the aggregate only moves from unknown to a result or from failure to error |
| `CheckState.MessagesOverRun` | internal/checks/state.go:231-239 | in every reachable state recorded messages belong only to failed checks |
| `CheckState.MessagesAreReports` | internal/checks/state_report.go:77-95 | after any run the recorded messages of an object are exactly those reported for it |
| `ConfirmProtocol.DecisionMeaning` | internal/cloud/backend_common.go:463-493 | the poller decides exactly when the run no longer waits for this decision; a discarded run gives the discard error of the operation's mode, any other the error of the keyword |
| `ConfirmProtocol.EveryRunKeeps` | internal/cloud/backend_common.go:440-552 | the protocol invariant holds after every interleaving of prompt, poller and cancellation |
| `ConfirmProtocol.NilMeansConfirmed` | internal/cloud/backend_common.go:502-551 | nil is returned if and only if the prompt's result comes first, the prompt ended polling for it and the user typed the keyword |
| `ConfirmProtocol.RefusalMeaning` | internal/cloud/backend_common.go:529-546 | with another answer the result is the failure to read the run again, the failure to discard it, or the discard error of the operation's mode, and the run is discarded exactly if it can be |
| `ConfirmProtocol.UnansweredMeaning` | internal/cloud/backend_common.go:502-516 | otherwise the prompt's result is a question that failed before the operation was cancelled, or the error of a cancelled operation; without failure, stop and decision the answer is acted upon |
| `ConfirmProtocol.CancelledPromptDoesNotAct` | internal/cloud/backend_common.go:508-522 | a prompt that was cancelled by the time asking ended neither ends polling nor discards the run |
| `ConfirmProtocol.DecisionIsRead` | internal/cloud/backend_common.go:456-493 | a result of the poller is what it makes of the run it has read last |
| `ConfirmProtocol.PollerGoesOnWaiting` | internal/cloud/backend_common.go:456-493 | the poller goes on only as long as the run it has read last waits for the decision |
| `ConfirmProtocol.NobodyBlocks` | internal/cloud/backend_common.go:442-551 | neither sender ever blocks and the receiver always finds a result |
| `ConfirmProtocol.ExternalDecisionReturned` | internal/cloud/backend_common.go:444-551 | the returned value is the poller's decision if and only if that decision was sent at a point where the prompt had sent no result; a prompt that neither cancelled polling nor was stopped returns it unless asking failed |
| `ConfirmProtocol.LeadingDecisionReturned` | internal/cloud/backend_common.go:444-551 | a decision sent while the prompt has no result is the value returned, whatever follows, a stop of the operation included |
| `ConfirmProtocol.DiscardOnlyOnRefusal` | internal/cloud/backend_common.go:517-546 | the run is discarded only after the user answered something other than the keyword |
| `ConfirmProtocol.PollingEndsBeforeActing` | internal/cloud/backend_common.go:517-527 | polling is cancelled before the answer is acted upon |
| `ConfirmProtocol.PollerStopsUnlessAskingFailed` | internal/cloud/backend_common.go:444-506 | on return the poller has no reason to stop, and is still polling, if and only if asking failed, the operation was not stopped and the poller sent nothing |
| `ConfirmProtocol.FailedQuestionLeavesPollerRunning` | internal/cloud/backend_common.go:502-506 | a run in which confirmation has returned and the poller goes on |
| `CloudState.StateManager.Write` | internal/cloud/state.go:156-167 | replaces the snapshot in memory and nothing else but the force flag |
| `CloudState.StateManager.Refresh` | internal/cloud/state.go:386-415 | takes over the server's snapshot, or forgets lineage and serial if there is none, or changes nothing on failure |
| `CloudState.StateManager.Persist` | internal/cloud/state.go:180-263 | the persist step on manager and server, every failure path included |
| `CloudState.StateManager.UploadCurrent` | internal/cloud/state.go:216-262 | encoding and uploading: success updates server and read copies, failure of the upload sets the error flag |
| `CloudState.StateManager.TakeLock` | internal/cloud/state.go:348-374 | remembers the lock only if the server granted it |
| `CloudState.StateManager.ReleaseLock` | internal/cloud/state.go:453-507 | makes the unlock or force-unlock request or none |
| `CloudState.SerialGrows` | internal/cloud/state.go:196-196 | a serial grows except where it wraps, and its signed reading except at 2^63 - 1 |
| `CloudState.ReadOrStoredIsSynced` | internal/cloud/state.go:180-263 | reading an existing snapshot or a first successful persist leaves manager and server in agreement |
| `CloudState.LineageIsKept` | internal/cloud/state.go:156-263 | from then on, over every run of writes, persists, locks and unlocks of any length with failures anywhere, lost confirmations of stored uploads included, uploads carry one lineage and the server stays on it, holding what the manager remembers unless an upload has failed |
| `CloudState.SerialsIncrease` | internal/cloud/state.go:156-263 | over such a run the serials of uploads strictly increase and the server is never ahead of the manager, as long as its persists do not carry the counter to 2^64 |
| `CloudState.WireSerialsIncrease` | internal/cloud/state.go:216-262 | so do the serials as the API carries them, as long as the counter stays below 2^63 |
| `CloudState.PersistStores` | internal/cloud/state.go:180-263 | a successful persist leaves the server with exactly the snapshot in memory |
| `CloudState.PersistStoresAfterRun` | internal/cloud/state.go:180-263 | also after any run of operations whatever failed in it |
| `CloudState.MemoryHoldsLastWrite` | internal/cloud/state.go:156-167 | over any run without refresh the content in memory is what was written last |
| `CloudState.LastWriteIsStored` | internal/cloud/state.go:156-263 | a persist that succeeds after such a run leaves the server with what was written last |
| `CloudState.WriteIsUploaded` | internal/cloud/state.go:156-263 | a persist after a write of different content makes one upload, carrying it under the same lineage and the next serial, not forced |
| `CloudState.FirstUpload` | internal/cloud/state.go:197-214 | the first upload to an empty workspace carries the content in memory, the generated lineage and the serial 1 |
| `CloudState.UploadsAreNotForced` | internal/cloud/state.go:163-164 | once forcing is not requested, no upload of a run is forced |
| `CloudState.SecondPersistIsIdle` | internal/cloud/state.go:188-195 | persisting again changes nothing if and only if lineage is non-empty and serial non-zero |
| `CloudState.FirstPersistDropsWrite` | internal/cloud/state.go:197-214 | a successful first persist stores the pending write if and only if the server has no snapshot or one with the same content; an existing snapshot is uploaded again, under a new lineage and the next serial if it had no lineage |
| `CloudState.DroppedWrite` | internal/cloud/state.go:197-214 | a pending write that is dropped, with and without a lineage on the server |
| `CloudState.NoUnlockAfterFailedUpload` | internal/cloud/state.go:453-467 | after a failed upload no later unlock reaches the server, whatever else is done |
| `CloudState.FailedUploadIsRemembered` | internal/cloud/state.go:249-253 | the error flag is set exactly by a persist that fails at the upload |
| `CloudState.UnlockReaches` | internal/cloud/state.go:453-507 | exactly when an unlock request is made |
| `CloudState.LockedCanBeUnlocked` | internal/cloud/state.go:348-374 | a lock that was granted is released with its own identifier and no other |
| `Formatter.ScanInside` | internal/command/fmt.go:354-391 | the loop with its quote counter finds exactly the flagged tokens |
| `Formatter.TrimNewlines` | internal/command/fmt.go:538-554 | the two scans compute the trimmed slice, or the panic |
| `Formatter.FormatValueExpr` | internal/command/fmt.go:336-431 | the whole method computes the formatting function |
| `Formatter.CounterIsDepth` | internal/command/fmt.go:362-380 | on nested tokens the flat counter is the number of quotes really open |
| `Formatter.OuterDelimitersMatch` | internal/command/fmt.go:354-391 | with nothing flagged the outer delimiters of a well-nested expression match each other |
| `Formatter.FormatIsSound` | internal/command/fmt.go:336-431 | a well-nested expression is returned unchanged or strictly shorter, well nested, and exactly the trimmed interior of matching delimiters, possibly parenthesised |
| `Formatter.UnwrapsExactly` | internal/command/fmt.go:354-391 | a well-nested quotation of one interpolation is unwrapped if and only if its interior nests on its own and holds template delimiters and literal text only inside nested quotations |
| `Formatter.UnwrappedWasWrapped` | internal/command/fmt.go:336-352 | nothing but a quotation of one interpolation is changed |
| `Formatter.UnwrappedExactly` | internal/command/fmt.go:392-431 | what is unwrapped becomes the trimmed interior, in new parentheses exactly if it has several lines and lacks them at its ends |
| `Formatter.FormatPanics` | internal/command/fmt.go:538-554 | formatting panics if and only if the interpolation holds nothing but newlines |
| `Formatter.FormatReachesFixpoint` | internal/command/fmt.go:336-431 | repeated formatting of any well-nested expression panics if and only if the expression itself is an interpolation of nothing but newlines, and otherwise reaches a well-nested fixpoint |
| `Formatter.MultiLineEnclosed` | internal/command/fmt.go:402-430 | a multi-line result is enclosed in one pair of parentheses if and only if it does not already start and end with unrelated ones |
| `Formatter.UnrelatedParensAreNotEnclosed` | internal/command/fmt.go:406-430 | a sum of two parenthesised terms on two lines for which the result is not enclosed |

## Left out

- Static addresses (`Module`, `ConfigResource`), placeholder keys and invalid resource modes: printing, ordering and containment are about concrete addresses.
- The HCL lexer and parser: a traversal is a sequence of steps, and `Traversals.Scan` reads only dotted names, integers and quoted strings; other number literals and comments are not read.
- Go's `path.Clean`, `path.Join`, `fs.ValidPath` and string sorting belong to its standard library; they are written out as functions here.
- Registry and remote source parsing, and the syntax of package addresses: packages are uninterpreted texts.
- The configuration walk that finds the expected checks: a run starts from any table of expected counts. Checkable objects and rules are plain keys.
- Mutexes of the check table and the state manager: each method is one atomic step. Nested tables are values that a method replaces, so sharing of inner maps and slices is not modelled.
- Building and sorting the graph of move statements: a schedule is any order that respects the dependencies, and the rejection of cyclic graphs is not modelled. Modules and resources without instances, which can also block a move, are not modelled.
- The rest of run handling in the cloud backend: waiting, cost, policy and task stages, output of messages.
- Migration writes, output values, deletion and snapshot intervals of the cloud state; state contents are uninterpreted texts compared by equality.
- The type formatter and everything of the formatting command around one expression.
- CloudState.SerialsIncrease: asks that the persists of the run do not carry the serial to 2^64, where the counter wraps; CloudState.SerialGrows gives the exact steps at which growth fails.
- CloudState.WireSerialsIncrease: asks the same for 2^63, where the serial sent to the API turns negative.
- ConfirmProtocol.NobodyBlocks: states that no send blocks and no receive starves, not that the user or the server eventually answers.
