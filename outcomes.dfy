/** The fatal outcomes of one run of the menu generator. The program panics on
    each of them; here a panic is an `Err` value that the caller propagates. */
module Outcomes {

  /** Every way a run can abort. */
  datatype Failure =
    | NotATeamEvent                    // compare_level_requirement on a league event
    | NotCharBoundary                  // String::truncate at a byte inside a character
    | TemplateError(message: string)   // the template engine refused a context

  datatype Result<T> = Ok(value: T) | Err(error: Failure)

  datatype Option<T> = None | Some(value: T)
}
