/**
 * The script's yes/no question: the operator's typed response and the
 * question's default decide a boolean.
 */
module Prompt {

  /** The answer the script substitutes for an empty response: "y" or "n". */
  function DefaultResponse(defaultYes: bool): string {
    if defaultYes then "y" else "n"
  }

  /**
   * `yes_or_no`: an empty response means the default; otherwise only the
   * first character counts. With a yes default anything not starting with
   * n/N agrees; with a no default only a leading y/Y agrees.
   */
  function YesOrNo(response: string, defaultYes: bool): (yes: bool)
    ensures response == [] ==> yes == defaultYes
  {
    var r := if response == [] then DefaultResponse(defaultYes) else response;
    if defaultYes then r[0] !in {'n', 'N'} else r[0] in {'y', 'Y'}
  }

  /** Only the first character of a non-empty response matters. */
  lemma FirstCharacterDecides(response: string, defaultYes: bool)
    requires response != []
    ensures YesOrNo(response, defaultYes) == YesOrNo(response[..1], defaultYes)
    ensures defaultYes ==> (YesOrNo(response, defaultYes) <==> response[0] != 'n' && response[0] != 'N')
    ensures !defaultYes ==> (YesOrNo(response, defaultYes) <==> response[0] == 'y' || response[0] == 'Y')
  {
  }

  /**
   * A response accepted under a "no" default is accepted under a "yes"
   * default too, and the two defaults disagree only on the empty response
   * and on responses starting with neither y/Y nor n/N.
   */
  lemma DefaultOnlyBreaksTies(response: string)
    ensures YesOrNo(response, false) ==> YesOrNo(response, true)
    ensures YesOrNo(response, true) != YesOrNo(response, false) <==>
      response == [] || response[0] !in {'y', 'Y', 'n', 'N'}
  {
  }
}
