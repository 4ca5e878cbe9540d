/**
 * A Release record in memory: its attributes are fields that are assigned in
 * place, `validates_presence_of :date` decides whether it may be saved, and
 * the `before_save` hook `set_coordinator` fills in a blank coordinator.
 */
module ReleaseRecord {
  import opened Wrappers
  import opened RubyText
  import opened Releases

  /** The coordinator a release gets when none is given. */
  const DefaultCoordinator: string := "Russell Craxford"

  /** The coordinator after `set_coordinator`: a blank one is replaced by the default. */
  function CoordinatorAfterHook(c: Option<string>): (r: Option<string>)
    ensures Present(r)
    ensures Present(c) ==> r == c
    ensures Blank(c) ==> r == Some(DefaultCoordinator)
  {
    if Blank(c) then
      DefaultCoordinatorIsPresent();
      Some(DefaultCoordinator)
    else c
  }

  /** The default coordinator is not blank, so the hook never stores a blank value. */
  lemma DefaultCoordinatorIsPresent()
    ensures Present(Some(DefaultCoordinator))
  {
    assert !IsSpace(DefaultCoordinator[0]);
  }

  /** Running the hook a second time changes nothing. */
  lemma CoordinatorAfterHookIdempotent(c: Option<string>)
    ensures CoordinatorAfterHook(CoordinatorAfterHook(c)) == CoordinatorAfterHook(c)
  {
  }

  /** `validates_presence_of :date`: a Date is never blank, so only a nil date fails. */
  predicate DateIsPresent(r: Row) {
    r.date.Some?
  }

  /** A row as `save` writes it: dated and with a coordinator that is not blank. */
  predicate Saveable(r: Row) {
    DateIsPresent(r) && Present(r.coordinator)
  }

  class Release {
    var date: Option<Date>
    var status: Option<string>
    var coordinator: Option<string>
    var notes: Option<string>
    var versions: map<App, string>

    /** `Release.new(attributes)` */
    constructor (attributes: Row)
      ensures Attributes() == attributes
    {
      date := attributes.date;
      status := attributes.status;
      coordinator := attributes.coordinator;
      notes := attributes.notes;
      versions := attributes.versions;
    }

    /** The record's attributes as a row of the table. */
    function Attributes(): Row
      reads this
    {
      Row(date, status, coordinator, notes, versions)
    }

    /** `valid?` */
    predicate IsValid()
      reads this
    {
      DateIsPresent(Attributes())
    }

    /** `set_coordinator`: a blank coordinator becomes the default; nothing else changes. */
    method SetCoordinator()
      modifies this`coordinator
      ensures coordinator == CoordinatorAfterHook(old(coordinator))
      ensures Present(coordinator)
      ensures Attributes() == old(Attributes()).(coordinator := coordinator)
    {
      if Blank(coordinator) {
        coordinator := Some(DefaultCoordinator);
      }
    }

    /**
     * The order `save` runs things in: the validations first, and only for a
     * valid record the `before_save` hook. The result is the row that would be
     * written, or nil when validation fails, in which case nothing changes.
     */
    method Save() returns (written: Option<Row>)
      modifies this`coordinator
      ensures written.Some? <==> old(date).Some?
      ensures written.None? ==> coordinator == old(coordinator)
      ensures written.Some? ==> written.value == Attributes() && Saveable(written.value)
      ensures written.Some? ==> Attributes() == old(Attributes()).(coordinator := CoordinatorAfterHook(old(coordinator)))
    {
      if !IsValid() {
        return None;
      }
      SetCoordinator();
      written := Some(Attributes());
    }
  }
}
