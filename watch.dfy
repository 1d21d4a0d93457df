/** The watch entity and the pure decisions of the watch-registration
    handler (`POST /`) and of the "my watches" page (`GET /watches`). */
module Watches {
  import opened Text

  datatype Option<T> = None | Some(value: T)

  /** The authenticated account, when there is one: its id and its email. */
  datatype Account = Account(id: string, email: string)

  /** A registration request: the three form fields (a missing field reads
      as the empty string) and the logged-in account, if any. */
  datatype Request = Request(email: string, crn: string, term: string, user: Option<Account>)

  /** What the seat checker reports for a section. */
  datatype Section = Section(availableSeats: int, title: string)

  /** The seat checker's answer: an error with its message, or the section. */
  datatype CheckResult = CheckError(message: string) | Found(section: Section)

  /** The result of saving a new watch. */
  datatype SaveResult = Saved | SaveError(message: string)

  /** A stored watch. `user` holds the owning account's id. */
  datatype Watch = Watch(
    email: string,
    crn: string,
    term: string,
    title: string,
    courseTitle: string,
    courseNumber: string,
    sectionNumber: string,
    user: Option<string>,
    isActive: bool)

  /** The field-format predicates of the validation library, which this
      model takes as given. */
  datatype Validator = Validator(
    isEmail: string -> bool,
    isNumeric: string -> bool,
    isInt: string -> bool)

  /** The seven checks of the registration form, in the order the handler
      declares them. A chained check reports each failing link on its own. */
  datatype Check =
    | EmailRequired   // email: notEmpty
    | EmailValid      // email: isEmail
    | CrnRequired     // crn: notEmpty
    | CrnNumeric      // crn: isNumeric
    | CrnInt          // crn: isInt
    | TermRequired    // term: notEmpty
    | TermNumeric     // term: isNumeric

  /** The form field a check is about. */
  function Param(c: Check): string {
    match c
    case EmailRequired | EmailValid => "email"
    case CrnRequired | CrnNumeric | CrnInt => "crn"
    case TermRequired | TermNumeric => "term"
  }

  /** The message a failing check reports. */
  function Message(c: Check): string {
    match c
    case EmailRequired => "Email address is required."
    case EmailValid => "Email address is not valid."
    case CrnRequired => "CRN is required."
    case CrnNumeric | CrnInt => "CRN must be an integer."
    case TermRequired | TermNumeric => "Term is invalid."
  }

  /** The validation library's `notEmpty`: the field is not made of white
      space alone (the empty string included). */
  predicate NotEmpty(s: string) {
    !AllWhitespace(s)
  }

  /** Whether check `c` fails on request `req`. */
  predicate Fails(v: Validator, req: Request, c: Check) {
    match c
    case EmailRequired => !NotEmpty(req.email)
    case EmailValid => !v.isEmail(req.email)
    case CrnRequired => !NotEmpty(req.crn)
    case CrnNumeric => !v.isNumeric(req.crn)
    case CrnInt => !v.isInt(req.crn)
    case TermRequired => !NotEmpty(req.term)
    case TermNumeric => !v.isNumeric(req.term)
  }

  /** The position of a check in the handler's declaration order. */
  function Rank(c: Check): nat {
    match c
    case EmailRequired => 0
    case EmailValid => 1
    case CrnRequired => 2
    case CrnNumeric => 3
    case CrnInt => 4
    case TermRequired => 5
    case TermNumeric => 6
  }

  /** The checks in the order the handler declares them. */
  const AllChecks: seq<Check> :=
    [EmailRequired, EmailValid, CrnRequired, CrnNumeric, CrnInt, TermRequired, TermNumeric]

  predicate InRankOrder(cs: seq<Check>) {
    forall i, j :: 0 <= i < j < |cs| ==> Rank(cs[i]) < Rank(cs[j])
  }

  /** The failing checks among `cs`, in the order of `cs`. */
  function FailingAmong(v: Validator, req: Request, cs: seq<Check>): (r: seq<Check>)
    ensures forall c :: c in r <==> c in cs && Fails(v, req, c)
    ensures InRankOrder(cs) ==> InRankOrder(r)
  {
    if |cs| == 0 then []
    else
      var rest := FailingAmong(v, req, cs[1..]);
      assert InRankOrder(cs) ==> InRankOrder(cs[1..]);
      HeadRanksFirst(cs);
      if Fails(v, req, cs[0]) then [cs[0]] + rest else rest
  }

  /** In a rank-ordered list the head outranks everything after it. */
  lemma HeadRanksFirst(cs: seq<Check>)
    requires |cs| > 0
    ensures InRankOrder(cs) ==> forall x :: x in cs[1..] ==> Rank(cs[0]) < Rank(x)
  {
    if InRankOrder(cs) {
      forall x | x in cs[1..] ensures Rank(cs[0]) < Rank(x) {
        var k :| 0 <= k < |cs[1..]| && cs[1..][k] == x;
        assert cs[k + 1] == x;
      }
    }
  }

  lemma AllChecksListsEveryCheck()
    ensures forall c :: c in AllChecks
  {
    forall c ensures c in AllChecks {
      match c
      case EmailRequired => assert AllChecks[0] == c;
      case EmailValid => assert AllChecks[1] == c;
      case CrnRequired => assert AllChecks[2] == c;
      case CrnNumeric => assert AllChecks[3] == c;
      case CrnInt => assert AllChecks[4] == c;
      case TermRequired => assert AllChecks[5] == c;
      case TermNumeric => assert AllChecks[6] == c;
    }
  }

  /** Every failing check, none skipped and none repeated, in declaration
      order: validation does not stop at the first error. */
  function Validate(v: Validator, req: Request): (errors: seq<Check>)
    ensures forall c :: c in errors <==> Fails(v, req, c)
    ensures InRankOrder(errors)
  {
    assert InRankOrder(AllChecks);
    AllChecksListsEveryCheck();
    FailingAmong(v, req, AllChecks)
  }

  /** A blank field (empty or white space only) always fails its
      "required" check, whatever else holds; validation passes exactly when
      every check of the form does. */
  lemma BlankFieldsAreReported(v: Validator, req: Request)
    ensures AllWhitespace(req.email) ==> EmailRequired in Validate(v, req)
    ensures AllWhitespace(req.crn) ==> CrnRequired in Validate(v, req)
    ensures AllWhitespace(req.term) ==> TermRequired in Validate(v, req)
    ensures Validate(v, req) == [] <==>
              NotEmpty(req.email) && NotEmpty(req.crn) && NotEmpty(req.term) &&
              v.isEmail(req.email) && v.isNumeric(req.crn) && v.isInt(req.crn) &&
              v.isNumeric(req.term)
  {
    assert Fails(v, req, EmailRequired) ==> EmailRequired in Validate(v, req);
    assert Fails(v, req, EmailValid) ==> EmailValid in Validate(v, req);
    assert Fails(v, req, CrnRequired) ==> CrnRequired in Validate(v, req);
    assert Fails(v, req, CrnNumeric) ==> CrnNumeric in Validate(v, req);
    assert Fails(v, req, CrnInt) ==> CrnInt in Validate(v, req);
    assert Fails(v, req, TermRequired) ==> TermRequired in Validate(v, req);
    assert Fails(v, req, TermNumeric) ==> TermNumeric in Validate(v, req);
    if Validate(v, req) != [] {
      assert Fails(v, req, Validate(v, req)[0]);
    }
  }

  /** The errors the form is shown again with: one (field, message) pair
      per failing check, in declaration order. */
  function ValidationErrors(v: Validator, req: Request): (errs: seq<(string, string)>)
    ensures |errs| == |Validate(v, req)|
    ensures forall i :: 0 <= i < |errs| ==>
              errs[i] == (Param(Validate(v, req)[i]), Message(Validate(v, req)[i]))
    ensures forall c :: Fails(v, req, c) ==> (Param(c), Message(c)) in errs
    ensures forall e :: e in errs ==> exists c :: Fails(v, req, c) && e == (Param(c), Message(c))
  {
    var checks := Validate(v, req);
    var errs := seq(|checks|, i requires 0 <= i < |checks| => (Param(checks[i]), Message(checks[i])));
    assert forall i :: 0 <= i < |errs| ==> Fails(v, req, checks[i]) && errs[i] == (Param(checks[i]), Message(checks[i]));
    errs
  }

  const OneSeatMessage: string := "It looks like there is still 1 available seat in this section!"

  /** The notice shown when the section still has `seats` free seats. */
  function SeatsMessage(seats: int): (m: string)
    requires seats > 0
    ensures m == OneSeatMessage <==> seats == 1
  {
    if seats == 1 then OneSeatMessage
    else
      var m := "It looks like there are still " + Digits(seats) + " available seats in this section!";
      assert m[20] != OneSeatMessage[20];
      m
  }

  /** The singular notice is used exactly for one seat, and the plural
      notice carries the seat count in decimal. */
  lemma SeatsMessageForm(seats: int)
    requires seats > 0
    ensures SeatsMessage(seats) == OneSeatMessage <==> seats == 1
    ensures seats != 1 ==>
              SeatsMessage(seats)[30..30 + |Digits(seats)|] == Digits(seats) &&
              DigitsValue(SeatsMessage(seats)[30..30 + |Digits(seats)|]) == seats
  {
    if seats != 1 {
      var m := SeatsMessage(seats);
      assert m[20] == 'a' && OneSeatMessage[20] == 'i';
      assert m[30..30 + |Digits(seats)|] == Digits(seats);
      DigitsRoundTrip(seats);
    }
  }

  /** The three fields derived from a section title. */
  datatype TitleFields = TitleFields(courseTitle: string, courseNumber: string, sectionNumber: string)

  /** JavaScript evaluation of the title derivation as written: indexing past
      the end of the parts yields `undefined`, and calling `trim` on it throws. */
  datatype Eval<T> = Value(value: T) | TypeError

  function TrimmedPart(parts: seq<string>, i: nat): Eval<string> {
    if i < |parts| then Value(Trim(parts[i])) else TypeError
  }

  /** The derivation as the handler writes it: segments 0, 2 and 3 of the
      split title, trimmed, with no check on how many segments there are. */
  function DeriveFieldsAsWritten(title: string): (r: Eval<TitleFields>)
    ensures r.TypeError? <==> |SplitOn(title)| < 4
  {
    var parts := SplitOn(title);
    match (TrimmedPart(parts, 0), TrimmedPart(parts, 2), TrimmedPart(parts, 3))
    case (Value(t), Value(n), Value(s)) => Value(TitleFields(t, n, s))
    case _ => TypeError
  }

  /** A title with no separator in it makes the derivation as written throw. */
  lemma ShortTitleThrows()
    ensures DeriveFieldsAsWritten("Intro to Systems").TypeError?
  {
    HyphenFreeTitleThrows("Intro to Systems");
  }

  lemma HyphenFreeTitleThrows(title: string)
    requires DashFree(title)
    ensures DeriveFieldsAsWritten(title).TypeError?
  {
    DashFreeIsSegment(title);
    SplitPlain(title);
  }

  /** The derivation with its arity checked: `None` exactly when the title
      has fewer than four segments; otherwise segments 0, 2 and 3 trimmed
      (segment 1 and any segment after the fourth are ignored). */
  function DeriveFields(title: string): (r: Option<TitleFields>)
    ensures r.None? <==> |SplitOn(title)| < 4
  {
    var parts := SplitOn(title);
    if |parts| < 4 then None
    else Some(TitleFields(Trim(parts[0]), Trim(parts[2]), Trim(parts[3])))
  }

  /** Where the derivation as written does not throw, the checked
      derivation gives the same fields. */
  lemma DeriveFieldsAgreesWithAsWritten(title: string)
    ensures DeriveFieldsAsWritten(title).Value? <==> DeriveFields(title).Some?
    ensures DeriveFields(title).Some? ==>
              DeriveFieldsAsWritten(title).value == DeriveFields(title).value
  {
  }

  /** The derived fields are trimmed and contain no separator. */
  lemma DerivedFieldsAreClean(title: string)
    requires DeriveFields(title).Some?
    ensures var f := DeriveFields(title).value;
            IsTrimmed(f.courseTitle) && IsTrimmed(f.courseNumber) && IsTrimmed(f.sectionNumber) &&
            !ContainsSep(f.courseTitle) && !ContainsSep(f.courseNumber) && !ContainsSep(f.sectionNumber)
  {
    var parts := SplitOn(title);
    SplitPartsHaveNoSep(title);
    TrimKeepsNoSep(parts[0]);
    TrimKeepsNoSep(parts[2]);
    TrimKeepsNoSep(parts[3]);
  }

  /** A title made of four segments (hyphens allowed, but no separator and
      no trailing " -") yields exactly the first, third and fourth segments,
      trimmed. */
  lemma DeriveFieldsOfFourSegments(a: string, b: string, c: string, d: string)
    requires Segment(a) && Segment(b) && Segment(c) && Segment(d)
    ensures DeriveFields(Join([a, b, c, d])) == Some(TitleFields(Trim(a), Trim(c), Trim(d)))
  {
    SplitJoin([a, b, c, d]);
  }

  /** The title format the seat checker is assumed to produce. */
  lemma DeriveFieldsExample()
    ensures DeriveFields("Intro to Systems - Lecture - CS301 - 002") ==
            Some(TitleFields("Intro to Systems", "CS301", "002"))
  {
    DeriveFieldsOfExample("Intro to Systems - Lecture - CS301 - 002", "Intro to Systems", "Lecture", "CS301", "002");
  }

  /* The helpers below take the example's strings as parameters fixed by
     `requires` rather than as literals in their bodies: on a literal, the
     verifier unrolls the recursive `SplitOn` and `Join` character by
     character, which is far slower than arguing through the split lemmas. */

  lemma DeriveFieldsOfExample(title: string, a: string, b: string, c: string, d: string)
    requires title == "Intro to Systems - Lecture - CS301 - 002"
    requires a == "Intro to Systems" && b == "Lecture" && c == "CS301" && d == "002"
    ensures DeriveFields(title) == Some(TitleFields(a, c, d))
  {
    ExampleTitleIsJoin(title, a, b, c, d);
    ExamplePartsArePlain(a, b, c, d);
    DashFreeIsSegment(a);
    DashFreeIsSegment(b);
    DashFreeIsSegment(c);
    DashFreeIsSegment(d);
    DeriveFieldsOfFourSegments(a, b, c, d);
    TrimTrimmed(a);
    TrimTrimmed(c);
    TrimTrimmed(d);
  }

  lemma ExamplePartsArePlain(a: string, b: string, c: string, d: string)
    requires a == "Intro to Systems" && b == "Lecture" && c == "CS301" && d == "002"
    ensures DashFree(a) && DashFree(b) && DashFree(c) && DashFree(d)
    ensures IsTrimmed(a) && IsTrimmed(c) && IsTrimmed(d)
  {
  }

  lemma ExampleTitleIsJoin(title: string, a: string, b: string, c: string, d: string)
    requires title == "Intro to Systems - Lecture - CS301 - 002"
    requires a == "Intro to Systems" && b == "Lecture" && c == "CS301" && d == "002"
    ensures title == Join([a, b, c, d])
  {
    JoinCons(c, [d]);
    assert [c] + [d] == [c, d];
    JoinCons(b, [c, d]);
    assert [b] + [c, d] == [b, c, d];
    JoinCons(a, [b, c, d]);
    assert [a] + [b, c, d] == [a, b, c, d];
    assert title == a + Sep + (b + Sep + (c + Sep + d));
  }

  /** The dedup query: an active watch for the same email, CRN and term. */
  predicate ActiveMatch(w: Watch, email: string, crn: string, term: string) {
    w.isActive && w.email == email && w.crn == crn && w.term == term
  }

  /** The first active watch in `ws` for `(email, crn, term)`, if any. */
  function FindActive(ws: seq<Watch>, email: string, crn: string, term: string): (r: Option<nat>)
    ensures r.Some? ==> r.value < |ws| && ActiveMatch(ws[r.value], email, crn, term)
    ensures r.None? <==> forall i :: 0 <= i < |ws| ==> !ActiveMatch(ws[i], email, crn, term)
  {
    if |ws| == 0 then None
    else if ActiveMatch(ws[0], email, crn, term) then Some(0)
    else
      match FindActive(ws[1..], email, crn, term)
      case None => None
      case Some(i) => Some(i + 1)
  }

  /** The dedup invariant: no two active watches share email, CRN and term. */
  ghost predicate AtMostOneActive(ws: seq<Watch>) {
    forall i, j :: 0 <= i < j < |ws| && ws[i].isActive ==>
      !ActiveMatch(ws[j], ws[i].email, ws[i].crn, ws[i].term)
  }

  /** Appending a watch for which the dedup query finds nothing keeps the
      invariant, whether or not the new watch is active. */
  lemma AppendKeepsAtMostOneActive(ws: seq<Watch>, w: Watch)
    requires AtMostOneActive(ws)
    requires FindActive(ws, w.email, w.crn, w.term).None?
    ensures AtMostOneActive(ws + [w])
  {
    var ws' := ws + [w];
    forall i, j | 0 <= i < j < |ws'| && ws'[i].isActive
      ensures !ActiveMatch(ws'[j], ws'[i].email, ws'[i].crn, ws'[i].term)
    {
      if j == |ws| {
        assert !ActiveMatch(ws[i], w.email, w.crn, w.term);
      }
    }
  }

  /** The ownership rule of the "my watches" page: the watch's email is the
      account's email, or the watch belongs to the account's id. */
  predicate Owns(acc: Account, w: Watch) {
    w.email == acc.email || w.user == Some(acc.id)
  }

  /** The watches `acc` owns, in store order. */
  function OwnedBy(ws: seq<Watch>, acc: Account): (r: seq<Watch>)
    ensures |r| <= |ws|
    ensures forall w :: w in r <==> w in ws && Owns(acc, w)
  {
    if |ws| == 0 then []
    else
      var rest := OwnedBy(ws[1..], acc);
      assert ws == [ws[0]] + ws[1..];
      if Owns(acc, ws[0]) then [ws[0]] + rest else rest
  }

  /** The filter keeps store order: it distributes over concatenation. */
  lemma {:induction false} OwnedByAppend(a: seq<Watch>, b: seq<Watch>, acc: Account)
    ensures OwnedBy(a + b, acc) == OwnedBy(a, acc) + OwnedBy(b, acc)
  {
    if |a| > 0 {
      assert (a + b)[1..] == a[1..] + b;
      OwnedByAppend(a[1..], b, acc);
    } else {
      assert a + b == b;
    }
  }

  /** Each owned watch is kept as often as it occurs; others are dropped. */
  lemma {:induction false} OwnedByCount(ws: seq<Watch>, acc: Account, w: Watch)
    ensures multiset(OwnedBy(ws, acc))[w] == if Owns(acc, w) then multiset(ws)[w] else 0
  {
    if |ws| > 0 {
      OwnedByCount(ws[1..], acc, w);
      assert ws == [ws[0]] + ws[1..];
    }
  }

  /** What the registration handler ends with. */
  datatype Outcome =
    | ValidationFailed(errors: seq<Check>)     // the form is shown again with every error
    | CheckFailed(message: string)             // the checker's error message is flashed
    | SeatsAvailable(seats: int, message: string)
    | Duplicate                                // an active watch already exists
    | MalformedTitle                           // fewer than four title segments
    | SaveFailed(message: string)              // the save error is sent back
    | Created(watch: Watch)
    | QueryFailed(message: string)             // the dedup query failed (checked variant only)

  /** The watch the handler builds: email, CRN and term from the request,
      the checker's title and the fields derived from it, the account id
      when someone is logged in, and active (the store's default for a new
      watch, on which the dedup query relies). */
  function NewWatch(req: Request, title: string, fields: TitleFields): (w: Watch)
    ensures ActiveMatch(w, req.email, req.crn, req.term)
    ensures forall acc: Account :: acc.email == req.email || req.user == Some(acc) ==> Owns(acc, w)
    ensures req.user.None? ==> w.user.None?
  {
    Watch(req.email, req.crn, req.term, title,
          fields.courseTitle, fields.courseNumber, fields.sectionNumber,
          if req.user.Some? then Some(req.user.value.id) else None,
          true)
  }

  /** The registration decision: what the handler ends with, given the
      checker's answer for `(term, crn)`, the stored watches and what saving
      the new watch reports. */
  function Decide(v: Validator, req: Request, answer: CheckResult, ws: seq<Watch>, save: SaveResult): (r: Outcome)
    ensures r.ValidationFailed? <==> Validate(v, req) != []
    ensures r.MalformedTitle? <==>
              && Validate(v, req) == []
              && answer.Found? && answer.section.availableSeats <= 0
              && (forall i :: 0 <= i < |ws| ==> !ActiveMatch(ws[i], req.email, req.crn, req.term))
              && |SplitOn(answer.section.title)| < 4
  {
    var errors := Validate(v, req);
    if errors != [] then ValidationFailed(errors)
    else if answer.CheckError? then CheckFailed(answer.message)
    else if answer.section.availableSeats > 0 then
      SeatsAvailable(answer.section.availableSeats, SeatsMessage(answer.section.availableSeats))
    else Admit(req, answer.section, ws, save)
  }

  /** The second half of the decision, once the section is known to be
      full: the dedup query, the title split and the save. */
  function Admit(req: Request, section: Section, ws: seq<Watch>, save: SaveResult): (r: Outcome)
    ensures r.Duplicate? || r.MalformedTitle? || r.SaveFailed? || r.Created?
    ensures r.Duplicate? <==> exists i :: 0 <= i < |ws| && ActiveMatch(ws[i], req.email, req.crn, req.term)
    ensures r.MalformedTitle? <==>
              (forall i :: 0 <= i < |ws| ==> !ActiveMatch(ws[i], req.email, req.crn, req.term)) &&
              |SplitOn(section.title)| < 4
  {
    if FindActive(ws, req.email, req.crn, req.term).Some? then Duplicate
    else match DeriveFields(section.title)
      case None => MalformedTitle
      case Some(fields) =>
        if save.SaveError? then SaveFailed(save.message)
        else Created(NewWatch(req, section.title, fields))
  }

  /** The stored watches after an outcome: only a creation adds anything. */
  function After(ws: seq<Watch>, o: Outcome): seq<Watch> {
    if o.Created? then ws + [o.watch] else ws
  }

  /** A failing validation reports every failing check, and neither the
      checker's answer, nor the store, nor the save is looked at. */
  lemma ValidationFailureStopsEarly(v: Validator, req: Request, answer: CheckResult, answer': CheckResult,
                                    ws: seq<Watch>, ws': seq<Watch>, save: SaveResult, save': SaveResult)
    requires Validate(v, req) != []
    ensures Decide(v, req, answer, ws, save) == ValidationFailed(Validate(v, req))
    ensures Decide(v, req, answer, ws, save) == Decide(v, req, answer', ws', save')
    ensures forall c :: c in Decide(v, req, answer, ws, save).errors <==> Fails(v, req, c)
    ensures After(ws, Decide(v, req, answer, ws, save)) == ws
  {
  }

  /** A checker error is passed on and creates nothing. */
  lemma CheckErrorCreatesNothing(v: Validator, req: Request, message: string, ws: seq<Watch>, save: SaveResult)
    requires Validate(v, req) == []
    ensures Decide(v, req, CheckError(message), ws, save) == CheckFailed(message)
    ensures After(ws, Decide(v, req, CheckError(message), ws, save)) == ws
  {
  }

  /** Open seats turn the request away whatever the store holds; the
      singular notice is used exactly when one seat is open. */
  lemma OpenSeatsCreateNothing(v: Validator, req: Request, section: Section,
                               ws: seq<Watch>, ws': seq<Watch>, save: SaveResult)
    requires Validate(v, req) == [] && section.availableSeats > 0
    ensures var o := Decide(v, req, Found(section), ws, save);
            && o == Decide(v, req, Found(section), ws', save)
            && o.SeatsAvailable? && o.seats == section.availableSeats
            && (o.message == OneSeatMessage <==> section.availableSeats == 1)
            && After(ws, o) == ws
  {
    SeatsMessageForm(section.availableSeats);
  }

  /** An existing active watch for the same email, CRN and term turns a
      request for a full section away as a duplicate. */
  lemma ActiveDuplicateRejected(v: Validator, req: Request, section: Section, ws: seq<Watch>, save: SaveResult, i: nat)
    requires Validate(v, req) == [] && section.availableSeats <= 0
    requires i < |ws| && ActiveMatch(ws[i], req.email, req.crn, req.term)
    ensures Decide(v, req, Found(section), ws, save) == Duplicate
    ensures After(ws, Decide(v, req, Found(section), ws, save)) == ws
  {
  }

  /** A watch is created exactly when validation passes, the checker finds
      the section full, no active watch for the same email, CRN and term
      exists, the title has four segments and the save succeeds; the new
      watch copies the request and the title, carries the account id
      exactly when someone is logged in, is active, and is the only change. */
  lemma CreatedExactlyWhen(v: Validator, req: Request, answer: CheckResult, ws: seq<Watch>, save: SaveResult)
    ensures var o := Decide(v, req, answer, ws, save);
            o.Created? <==>
              && Validate(v, req) == []
              && answer.Found? && answer.section.availableSeats <= 0
              && (forall i :: 0 <= i < |ws| ==> !ActiveMatch(ws[i], req.email, req.crn, req.term))
              && |SplitOn(answer.section.title)| >= 4
              && save.Saved?
    ensures var o := Decide(v, req, answer, ws, save);
            o.Created? ==>
              var w := o.watch;
              && w.email == req.email && w.crn == req.crn && w.term == req.term
              && w.title == answer.section.title
              && DeriveFields(w.title) == Some(TitleFields(w.courseTitle, w.courseNumber, w.sectionNumber))
              && (w.user.Some? <==> req.user.Some?)
              && (req.user.Some? ==> w.user.value == req.user.value.id)
              && w.isActive
              && After(ws, o) == ws + [w]
  {
  }

  /** The full-section half of registering keeps the dedup invariant. */
  lemma AdmitKeepsAtMostOneActive(req: Request, section: Section, ws: seq<Watch>, save: SaveResult)
    requires AtMostOneActive(ws)
    ensures AtMostOneActive(After(ws, Admit(req, section, ws, save)))
  {
    var o := Admit(req, section, ws, save);
    if o.Created? {
      AppendKeepsAtMostOneActive(ws, o.watch);
    }
  }

  /** The full-section half when the dedup query itself may fail, as the
      handler writes it: the query's error is ignored, and its missing
      result reads as "no watch found", exactly as if nothing were stored. */
  function AdmitAsWritten(req: Request, section: Section, ws: seq<Watch>, queryError: Option<string>,
                          save: SaveResult): (r: Outcome)
    ensures queryError.Some? ==> !r.Duplicate?
    ensures queryError.None? ==> r == Admit(req, section, ws, save)
  {
    if queryError.Some? then Admit(req, section, [], save) else Admit(req, section, ws, save)
  }

  /** Ignoring a failed dedup query lets a second active watch for the same
      email, CRN and term in: the store then breaks the dedup invariant. */
  lemma IgnoredQueryErrorBreaksDedup(req: Request, section: Section, ws: seq<Watch>, message: string, i: nat)
    requires i < |ws| && ActiveMatch(ws[i], req.email, req.crn, req.term)
    requires |SplitOn(section.title)| >= 4
    ensures var o := AdmitAsWritten(req, section, ws, Some(message), Saved);
            o.Created? && !AtMostOneActive(After(ws, o))
  {
    assert DeriveFields(section.title).Some?;
    var w := NewWatch(req, section.title, DeriveFields(section.title).value);
    assert Admit(req, section, [], Saved) == Created(w);
    assert AdmitAsWritten(req, section, ws, Some(message), Saved) == Created(w);
    var ws' := ws + [w];
    assert After(ws, Created(w)) == ws';
    assert ws'[i] == ws[i] && ws'[|ws|] == w;
    assert ActiveMatch(ws'[|ws|], ws'[i].email, ws'[i].crn, ws'[i].term);
  }

  /** The full-section half with the dedup query's error checked: a failed
      query is reported and stores nothing; a successful one proceeds as
      `Admit`. */
  function AdmitChecked(req: Request, section: Section, ws: seq<Watch>, queryError: Option<string>,
                        save: SaveResult): (r: Outcome)
    ensures queryError.Some? ==> r == QueryFailed(queryError.value)
    ensures queryError.None? ==> r == Admit(req, section, ws, save)
  {
    match queryError
    case Some(message) => QueryFailed(message)
    case None => Admit(req, section, ws, save)
  }

  /** With the query's error checked, the dedup invariant holds whether or
      not the query fails. */
  lemma AdmitCheckedKeepsAtMostOneActive(req: Request, section: Section, ws: seq<Watch>,
                                         queryError: Option<string>, save: SaveResult)
    requires AtMostOneActive(ws)
    ensures AtMostOneActive(After(ws, AdmitChecked(req, section, ws, queryError, save)))
  {
    if queryError.None? {
      AdmitKeepsAtMostOneActive(req, section, ws, save);
    }
  }

  /** Registering keeps the dedup invariant. */
  lemma DecideKeepsAtMostOneActive(v: Validator, req: Request, answer: CheckResult, ws: seq<Watch>, save: SaveResult)
    requires AtMostOneActive(ws)
    ensures AtMostOneActive(After(ws, Decide(v, req, answer, ws, save)))
  {
    var o := Decide(v, req, answer, ws, save);
    if o.Created? {
      AppendKeepsAtMostOneActive(ws, o.watch);
    }
  }

  /** Once a watch is created, the same request is never created again,
      whatever the checker answers and the save reports the second time; if
      the checker again finds the section full, it is a duplicate. */
  lemma RepeatIsDuplicate(v: Validator, req: Request, answer: CheckResult, ws: seq<Watch>, save: SaveResult,
                          answer': CheckResult, save': SaveResult)
    requires Decide(v, req, answer, ws, save).Created?
    ensures var ws' := After(ws, Decide(v, req, answer, ws, save));
            && !Decide(v, req, answer', ws', save').Created?
            && (answer'.Found? && answer'.section.availableSeats <= 0 ==>
                  Decide(v, req, answer', ws', save') == Duplicate)
  {
    var ws' := After(ws, Decide(v, req, answer, ws, save));
    CreatedExactlyWhen(v, req, answer, ws, save);
    assert ActiveMatch(ws'[|ws|], req.email, req.crn, req.term);
    CreatedExactlyWhen(v, req, answer', ws', save');
    if answer'.Found? && answer'.section.availableSeats <= 0 {
      assert answer' == Found(answer'.section);
      ActiveDuplicateRejected(v, req, answer'.section, ws', save', |ws|);
    }
  }

  /** A created watch is listed on the "my watches" page of the account that
      registered it, and of any account with the same email. */
  lemma CreatedWatchIsListed(v: Validator, req: Request, answer: CheckResult, ws: seq<Watch>, save: SaveResult,
                             acc: Account)
    requires Decide(v, req, answer, ws, save).Created?
    requires req.user == Some(acc) || acc.email == req.email
    ensures var o := Decide(v, req, answer, ws, save);
            o.watch in OwnedBy(After(ws, o), acc)
  {
    var o := Decide(v, req, answer, ws, save);
    assert After(ws, o)[|ws|] == o.watch;
  }

  datatype FlashKind = Error | Info | Success

  /** The flash notice an outcome renders, if any. */
  function Notice(o: Outcome): (n: Option<(FlashKind, string)>)
    ensures n.Some? <==> o.CheckFailed? || o.SeatsAvailable? || o.Duplicate? || o.Created? || o.QueryFailed?
    ensures n.Some? && n.value.0 == Success <==> o.Created?
    ensures n.Some? && n.value.0 == Error <==> o.CheckFailed? || o.SeatsAvailable? || o.QueryFailed?
  {
    match o
    case CheckFailed(m) => Some((Error, m))
    case QueryFailed(m) => Some((Error, m))
    case SeatsAvailable(_, m) => Some((Error, m))
    case Duplicate => Some((Info, "It looks like you've already submitted a request for this section."))
    case Created(w) => Some((Success, SuccessPrefix + w.title + "</strong>"))
    case _ => None
  }

  const SuccessPrefix: string := "You will be notified when there is space available in <strong>"

  /** What the "my watches" page does. */
  datatype WatchesView =
    | RedirectToLogin
    | Listing(watches: seq<Watch>)
    | FindFailed(message: string)   // the error is flashed; no page is sent
}
