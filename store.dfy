/** The watch collection and the two handlers that use it: registering a
    watch (`POST /`) and listing one's own watches (`GET /watches`).
    Registrations are handled one at a time. */
module Store {
  import opened Watches

  class WatchStore {
    /** Every stored watch, in insertion order. */
    var watches: seq<Watch>

    constructor ()
      ensures watches == []
      ensures Valid()
    {
      watches := [];
    }

    /** The dedup invariant over the stored watches. */
    ghost predicate Valid()
      reads this
    {
      AtMostOneActive(watches)
    }

    /** The registration handler. `getSection` is the seat checker, asked
        for `(term, crn)`; `save` is what saving the new watch reports.
        Validation failures, checker errors, open seats, an existing active
        watch, a malformed title and a failed save all leave the store as
        it was; otherwise exactly one watch is appended. */
    method Register(v: Validator, req: Request, getSection: (string, string) -> CheckResult, save: SaveResult)
      returns (o: Outcome)
      modifies this
      ensures o == Decide(v, req, getSection(req.term, req.crn), old(watches), save)
      ensures watches == After(old(watches), o)
      ensures old(Valid()) ==> Valid()
    {
      var errors := Validate(v, req);
      if errors != [] {
        return ValidationFailed(errors);
      }
      var answer := getSection(req.term, req.crn);
      if answer.CheckError? {
        return CheckFailed(answer.message);
      }
      var section := answer.section;
      if section.availableSeats > 0 {
        return SeatsAvailable(section.availableSeats, SeatsMessage(section.availableSeats));
      }
      o := Admit(req, section, save);
    }

    /** The full-section half of the handler: the dedup query, the title
        split, and the save that appends the new watch. */
    method Admit(req: Request, section: Section, save: SaveResult) returns (o: Outcome)
      modifies this
      ensures o == Watches.Admit(req, section, old(watches), save)
      ensures o.Created? ==> watches == old(watches) + [o.watch]
      ensures !o.Created? ==> watches == old(watches)
      ensures old(Valid()) ==> Valid()
    {
      if FindActive(watches, req.email, req.crn, req.term).Some? {
        return Duplicate;
      }
      var fields := DeriveFields(section.title);
      if fields.None? {
        return MalformedTitle;
      }
      // The owner is recorded when someone is logged in; a new watch is
      // active, which the dedup query above relies on.
      var owner := None;
      if req.user.Some? {
        owner := Some(req.user.value.id);
      }
      var watch := Watch(req.email, req.crn, req.term, section.title,
                         fields.value.courseTitle, fields.value.courseNumber, fields.value.sectionNumber,
                         owner, true);
      assert watch == NewWatch(req, section.title, fields.value);
      if save.SaveError? {
        return SaveFailed(save.message);
      }
      if AtMostOneActive(watches) {
        AdmitKeepsAtMostOneActive(req, section, watches, save);
      }
      watches := watches + [watch];
      o := Created(watch);
    }

    /** The "my watches" page. Without a logged-in account it redirects to
        the login page; otherwise it lists, in store order, the watches whose
        email is the account's email or whose owner is the account. A failed
        query (`failure`) is flashed and nothing is listed. */
    function MyWatches(user: Option<Account>, failure: Option<string>): (view: WatchesView)
      reads this
      ensures view.RedirectToLogin? <==> user.None?
      ensures user.Some? && failure.Some? ==> view == FindFailed(failure.value)
      ensures user.Some? && failure.None? ==> view == Listing(OwnedBy(watches, user.value))
      ensures view.Listing? ==>
                && view.watches == OwnedBy(watches, user.value)
                && forall w :: w in view.watches <==> w in watches && Owns(user.value, w)
    {
      match user
      case None => RedirectToLogin
      case Some(acc) =>
        if failure.Some? then FindFailed(failure.value) else Listing(OwnedBy(watches, acc))
    }
  }

  /** The same request submitted twice in a row. The seat checker is asked
      afresh each time (`getSection`, then `getSection'`), and the two saves
      may report differently. If the first request creates a watch, the
      second creates none, and it is a duplicate whenever the checker again
      finds the section full. Either way the store ends up holding what the
      two outcomes add. */
  method RepeatedRequestIsDuplicate(store: WatchStore, v: Validator, req: Request,
                                    getSection: (string, string) -> CheckResult, save: SaveResult,
                                    getSection': (string, string) -> CheckResult, save': SaveResult)
    returns (first: Outcome, second: Outcome)
    modifies store
    ensures first.Created? ==> !second.Created?
    ensures (first.Created? && getSection'(req.term, req.crn).Found? &&
             getSection'(req.term, req.crn).section.availableSeats <= 0) ==> second == Duplicate
    ensures store.watches == After(After(old(store.watches), first), second)
  {
    ghost var before := store.watches;
    first := store.Register(v, req, getSection, save);
    if first.Created? {
      RepeatIsDuplicate(v, req, getSection(req.term, req.crn), before, save, getSection'(req.term, req.crn), save');
    }
    second := store.Register(v, req, getSection', save');
  }
}
