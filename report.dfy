/**
 * What both variants of the submit handler share: the four form values,
 * the possible ends of one submission, and the body handed back to the host.
 */
module Report {
  import opened Wrappers
  import opened Text

  /** The form values: selected project, free-text PAE project code, selected
      prestation and the value of the "include" control. */
  datatype Record = Record(project: string, paeProject: string, prestation: string, included: string)

  /** How one submission ends. */
  datatype Outcome =
    | ReadFailed               // the body read failed; only logged
    | AlreadyPresent           // alert "Les éléments du reporting sont déjà présents"
    | Replaced(previous: Record)  // confirmation accepted, marker text replaced
    | Kept(previous: Record)      // confirmation cancelled
    | Inserted                 // a new marker block was added, alert shown
    | NoInsertionPoint         // desktop body with neither insertion point
    | UnknownClient            // host is neither desktop nor web
    | Throws                   // destructuring the failed decode match throws

  /** The outcome and the body passed to `setAsync`, if one is. */
  datatype Reply = Reply(outcome: Outcome, write: Option<string>)

  /** The outcomes after which the body is written back. */
  predicate Writes(o: Outcome) {
    o.Replaced? || o.Inserted?
  }

  function Fields(r: Record): seq<string> {
    [r.project, r.paeProject, r.prestation, r.included]
  }

  /** No form value holds `$`, so `String.prototype.replace` inserts the new
      text literally instead of expanding `$&`, `$1`, … in it. */
  predicate NoDollarIn(r: Record) {
    NoDollar(r.project) && NoDollar(r.paeProject) && NoDollar(r.prestation) && NoDollar(r.included)
  }

  /** No form value holds `p`. */
  predicate FieldsLack(p: string, r: Record) {
    !Occurs(p, r.project) && !Occurs(p, r.paeProject) && !Occurs(p, r.prestation) && !Occurs(p, r.included)
  }
}
