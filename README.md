# Interactor organizer, modelled in Dafny

An organizer runs an ordered list of interactors (steps) one after another
against a single shared context. It has two parts, and this project models
both:

- **The declaration table.** `organize(*interactors)` flattens its argument
  list, however deeply arrays are nested (an array that contains itself
  makes Ruby raise; see "Left out"). It then maps each element to a
  `{ interactor:, condition: }` hash. A bare step reference gets the
  always-true condition `-> { true }`. A hash is kept as it was given. The
  result is assigned to the class-level `@organized`, and that assignment
  replaces the previous table. `organized` reads the field through
  `@organized ||= []`, so it returns the empty table if nothing was ever
  declared.
- **The runner.** An instance's `call` reads `self.class.organized` once.
  It walks the entries in order and evaluates each condition in the
  instance (`instance_exec`). When the condition is truthy it invokes the
  step's failing-fast `call!` with the context. When it is falsy it skips
  the step. A failure raised by a step's `call!` or by a condition ends the
  walk and propagates to the caller unchanged.

Files:

- `declarations.dfy` (module `Declarations`): the pure `flatten.map`. It
  defines the declarations `Decl`, the entries `Entry` and their conditions,
  and `Flatten`, `Normalize`, `Table` and the inverse `Denormalize`. The
  lemmas cover order, flattening and the round trip between declarations
  and entries.
- `runner.dfy` (module `Runner`): `Walk` is the run of `call` as a function.
  `ValidRun` restates the same rules entry by entry, without recursion.
  `WalkIsValid` and `ValidRunIsWalk` prove that the two agree. The module
  also holds the lemmas for short-circuiting, sequential composition,
  inert entries and fixed conditions.
- `organizer.dfy` (module `Organizer`): two classes.
  - `OrganizerClass` holds `@organized` as an `Option` and has the methods
    `Organize` and `Organized`.
  - `OrganizerInstance` holds the instance's context. Its `Call` method is
    the imperative loop, and its contract ties it to `Walk`.
  - Two client methods show replace-not-append and the empty default.

Modelling choices:

- Steps and conditions are not part of the organizer, so they are
  parameters. A step is `step: (U, C) -> StepOutcome<C, E>`: it returns the
  context as it left it, and possibly the failure it raised. A condition is
  evaluated by `guard: (G, C) -> Truth<E>`: Ruby truthiness (nil and false
  are falsy), or the error the evaluation raised.
- The `-> { true }` lambda stored for a bare reference is the condition
  `AlwaysTrue`. Its evaluation is always truthy.
- The context is one object that every step mutates in place. The model
  threads it as a value: each step receives the context as the previous
  invoked step left it, and a skipped entry leaves it unchanged.
- `organized` is `nil` until first assigned, modelled as `None`.
  Every assignment is `Some(table)`.

Where the tests and the code disagree, the model follows the code:

- `spec/interactor/organizer_spec.rb:17` expects the default condition to be
  the literal `true`. The code stores a lambda
  (`lib/interactor/organizer.rb:74`), modelled as `AlwaysTrue`.
- The table stubbed at `spec/interactor/organizer_spec.rb:54-59` uses the
  literals `true` and `false` as conditions. The code passes every condition
  to `instance_exec` as a block (`lib/interactor/organizer.rb:107`). `true`
  and `false` are not Procs and have no `to_proc`, so that raises TypeError
  at the first entry, before any `call!`. The stubbed `#call` test therefore
  fails at its first entry. In the model this is a `guard` that returns
  `GuardRaised`, so the run ends with a `GuardFailed` event for entry 0.
- `spec/interactor/organizer_spec.rb:67` names `interactor4` where the entry
  with the false condition, `interactor5` (line 58), is evidently meant.
  `StaticGuardsInvokeSelected` states what the test intends for a table of
  constant lambdas (`-> { true }`, `-> { false }`): the entries with a false
  condition are not invoked.

## Model

| member | source | states |
|---|---|---|
| Declarations.Flatten | lib/interactor/organizer.rb:73 | the flattened argument list contains no array, at any depth |
| Declarations.ToEntry | lib/interactor/organizer.rb:74 | an entry has the always-true condition exactly when it comes from a bare reference; the entry keeps the step and the hash's condition, so the declaration can be recovered from it |
| Declarations.FromEntry | lib/interactor/organizer.rb:74 | every entry is the normalisation of a bare reference or a hash, and the always-true condition marks the bare ones |
| Declarations.Table | lib/interactor/organizer.rb:73-75 | the value of `interactors.flatten.map { … }`: one entry per flattened argument, and position i holds the normalisation of flattened argument i |
| Declarations.Normalize | lib/interactor/organizer.rb:73-75 | `map` gives one entry per flattened element: same length, and position i holds the normalisation of element i |
| Declarations.FlattenAppend | lib/interactor/organizer.rb:73 | flattening two argument lists one after the other gives the concatenation of their flattenings |
| Declarations.FlattenOfFlat | lib/interactor/organizer.rb:73 | an argument list without arrays is flattened to itself: nothing reordered, dropped or duplicated |
| Declarations.FlattenIdempotent | lib/interactor/organizer.rb:73 | flattening a flattened list changes nothing |
| Declarations.TableOfNested | lib/interactor/organizer.rb:62-73 | an array argument contributes its elements at its own position, so `organize([a, b])` declares the same table as `organize(a, b)` |
| Declarations.TableOfConcat | lib/interactor/organizer.rb:47-75 | the table of concatenated argument lists is the concatenation of their tables (entries appear in declaration order) |
| Declarations.TableRoundTrip | lib/interactor/organizer.rb:73-75 | mapping the table back gives exactly the flattened declarations, including every hash as given |
| Declarations.DenormalizeRoundTrip | lib/interactor/organizer.rb:73-75 | every table of entries is the table of the bare references and hashes it records |
| Runner.Check | lib/interactor/organizer.rb:107 | evaluating `instance_exec(&condition)`: the stored `-> { true }` of a bare reference is always truthy, and a hash's condition yields what `guard` gives for it at the current context, including an error |
| Runner.Walk | lib/interactor/organizer.rb:105-109 | a run handles at most one event per entry, and a run that completes has handled every entry |
| Runner.WalkIsValid | lib/interactor/organizer.rb:105-109 | the run obeys the entry-by-entry rules: the entries are visited in table order, the context is threaded from each step to the next, the steps are invoked exactly where the condition is truthy and skipped where it is falsy, only the last event may be a failure, and the failure is returned unchanged |
| Runner.ValidRunIsWalk | lib/interactor/organizer.rb:105-109 | any report obeying those rules is the run, so the rules determine `call` completely |
| Runner.FailureIgnoresLater | lib/interactor/organizer.rb:106-107 | once an entry fails, no later entry has its condition evaluated or its step invoked: appending entries changes neither the events nor the result |
| Runner.WalkConcat | lib/interactor/organizer.rb:106-107 | a run that gets through a prefix continues with the rest from the context the prefix left |
| Runner.NeverTruthyEntryIsInert | lib/interactor/organizer.rb:107 | an entry whose condition is falsy in every context is never invoked; dropping it changes neither the outcome nor the steps invoked |
| Runner.StaticGuardsInvokeSelected | lib/interactor/organizer.rb:106-107 | with conditions fixed in advance, the steps invoked are exactly the table's truthy entries in order, up to the point reached; a run that fails stops at the failing step, and a run that completes reached the whole table |
| Organizer.Declared | lib/interactor/organizer.rb:93 | the value `@organized ||= []` yields: the empty table when the field is nil, the assigned table otherwise |
| Organizer.OrganizerClass.constructor | lib/interactor/organizer.rb:93 | a new organizer class has not assigned `@organized` |
| Organizer.OrganizerClass.Organize | lib/interactor/organizer.rb:72-76 | `@organized` becomes the table of the new arguments, whatever it held before |
| Organizer.OrganizerClass.Organized | lib/interactor/organizer.rb:92-94 | returns the declared table, or the empty table when nothing was declared, and leaves the field holding the returned table, never nil |
| Organizer.OrganizerInstance.Call | lib/interactor/organizer.rb:105-109 | the events, the final context and the failure, if any, are those of `Walk` on the table read through `organized`; the table is not changed |
| Organizer.RedeclarationReplaces | lib/interactor/organizer.rb:72-76 | after `organize(A); organize(B)`, `organized` is the table of B alone |
| Organizer.NeverOrganizedIsEmpty | lib/interactor/organizer.rb:92-94 | `organized` on a class that never called `organize` is the empty table |

## Left out

- The base `Interactor` module (`call!`, `context`, the success and failure
  rules, `requires`) is not part of this model. Steps and conditions are
  the `step` and `guard` parameters.
- Nesting an organizer as a step of another goes through the base
  `Interactor` `call!` and is not part of this model. The run's `Result`
  has the same shape as a `StepOutcome`.
- The `self.included` hook, `class_eval`, `extend` and `include` are Ruby
  mechanics of installing the methods. The model has them as plain class
  members.
- Exceptions are modelled as values. `Call` returns the first failure
  instead of raising it.
- Object identity of the context is not modelled. The context is threaded
  as a value, so aliasing between the context and other objects is not
  captured.
- Side effects of evaluating a condition are not modelled. A condition
  reads the context and changes nothing.
- A hash's keys other than `:interactor` and `:condition` are not modelled.
  A missing key reads as nil, which the model treats as just another step
  or condition value. The failure that nil causes when it is reached comes
  from `step` or `guard`.
- `Array#flatten` raises ArgumentError on an array that contains itself.
  That failure of `organize` is not modelled: a `Nested` value cannot
  contain itself, so every declaration in the model is finite.
- Aliasing of the table is not modelled. `organized` returns the
  `@organized` array object itself, so a caller's `organized << x` changes
  the table. `organize` stores the caller's own Hash objects, so mutating
  such a hash later also changes the table. The model's table is a value,
  and only `Organize` and `Organized` change it.
- `Array#flatten` on objects that convert to arrays through `to_ary` is not
  modelled. Only literal arrays are nested declarations.
- Redeclaring the table while a run is in progress is not modelled. The
  code has no synchronisation for it, and `Call` reads the table once.
- The tests at `spec/interactor/organizer_spec.rb:73-123` are not modelled.
  They depend on an external `requires` mechanism and only assert that no
  error is raised.
