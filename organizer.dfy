/** The two halves of an organizer as objects: the state the organizer class
    itself carries (its `@organized` table, set by `organize` and read
    lazily by `organized`), and an instance whose `call` walks that table
    against the instance's context. */
module Organizer {
  import opened Declarations
  import opened Runner

  datatype Option<T> = None | Some(value: T)

  /** What `organized` returns for a given `@organized`: the table, or the
      empty table when nothing was ever assigned. */
  function Declared<U, G>(field: Option<seq<Entry<U, G>>>): (r: seq<Entry<U, G>>)
    ensures field.None? ==> r == []
    ensures field.Some? ==> r == field.value
  {
    match field
    case None => []
    case Some(table) => table
  }

  /** The class-level state of one organizer class. */
  class OrganizerClass<U, G> {
    /** `@organized`: nil until `organize` or `organized` assigns it. */
    var organized: Option<seq<Entry<U, G>>>

    /** A freshly defined organizer class has declared nothing. */
    constructor ()
      ensures organized == None
    {
      organized := None;
    }

    /** `organize(*decls)`: assigns the normalised, flattened table,
        discarding whatever table was there. */
    method Organize(decls: seq<Decl<U, G>>)
      modifies this
      ensures organized == Some(Table(decls))
    {
      organized := Some(Table(decls));
    }

    /** `organized` (`@organized ||= []`): the declared table, or the empty
        table when nothing was declared, in which case the field becomes the
        empty table rather than staying nil. */
    method Organized() returns (table: seq<Entry<U, G>>)
      modifies this
      ensures table == Declared(old(organized))
      ensures organized == Some(table)
    {
      if organized.None? {
        organized := Some([]);
      }
      table := organized.value;
    }
  }

  /** An instance of an organizer class, with the context it was called
      with. */
  class OrganizerInstance<U, G, C, E> {
    /** The organizer class the instance belongs to (`self.class`). */
    const kind: OrganizerClass<U, G>
    /** The instance's `context`, shared with every step it invokes. */
    var context: C

    constructor (kind: OrganizerClass<U, G>, context: C)
      ensures this.kind == kind && this.context == context
    {
      this.kind := kind;
      this.context := context;
    }

    /** `call`: reads the table through `organized`, then for each entry in
        order evaluates its condition, invokes the step's `call!` with the
        context when the condition is truthy, and returns the first failure
        at once.  The outcome, the context afterwards and the events are
        those of `Walk` on the table read at the start; the table itself is
        left as `organized` leaves it. */
    method Call(guard: (G, C) -> Truth<E>, step: (U, C) -> StepOutcome<C, E>)
      returns (failure: Option<E>, trace: seq<Event<C, E>>)
      modifies this, kind
      ensures kind.organized == Some(Declared(old(kind.organized)))
      ensures var run := Walk(Declared(old(kind.organized)), old(context), guard, step);
              && trace == run.trace
              && context == run.result.ctx
              && (failure.Some? <==> run.result.Failed?)
              && (failure.Some? ==> failure.value == run.result.error)
    {
      var table := kind.Organized();
      ghost var run := Walk(table, context, guard, step);
      trace := [];
      var i := 0;
      while i < |table|
        invariant 0 <= i <= |table|
        invariant kind.organized == Some(table)
        invariant var rest := Walk(table[i..], context, guard, step);
                  run == Report(trace + rest.trace, rest.result)
      {
        assert table[i..][1..] == table[i + 1..];
        var entry := table[i];
        match Check(entry.condition, context, guard) {
          case GuardRaised(e) =>
            trace := trace + [GuardFailed(context, e)];
            failure := Some(e);
            return;
          case Falsy =>
            trace := trace + [Skipped(context)];
          case Truthy =>
            match step(entry.interactor, context) {
              case Raised(e, after) =>
                trace := trace + [StepFailed(context, e)];
                context := after;
                failure := Some(e);
                return;
              case Done(after) =>
                trace := trace + [Invoked(context)];
                context := after;
            }
        }
        i := i + 1;
      }
      failure := None;
    }
  }

  /** Declaring twice keeps only the second declaration: the table read
      afterwards depends on the second argument list alone. */
  method RedeclarationReplaces<U, G>(first: seq<Decl<U, G>>, second: seq<Decl<U, G>>)
    returns (table: seq<Entry<U, G>>)
    ensures table == Table(second)
  {
    var k := new OrganizerClass<U, G>();
    k.Organize(first);
    k.Organize(second);
    table := k.Organized();
  }

  /** An organizer class that never declared anything reads as the empty
      table. */
  method NeverOrganizedIsEmpty<U, G>() returns (table: seq<Entry<U, G>>)
    ensures table == []
  {
    var k := new OrganizerClass<U, G>();
    table := k.Organized();
  }
}
