/**
 * What a click on a page button does beyond its press animation (the button
 * handler of `initSmoothScroll` in app.js): the lower-cased text of the
 * button selects, by the first matching test, a move to the login page, the
 * partnership alert, or nothing.
 */
module ButtonRouting {
  import opened Text

  /** The page a start, get-started or demo button leads to. */
  const LoginPage: string := "login.html"

  datatype ButtonAction = GoTo(page: string) | PartnerAlert | NoAction

  /** The button starts the sign-in path: its text names an assessment start, getting started or the demo. */
  predicate StartsSignIn(t: string)
  {
    Contains(t, "start assessment") || Contains(t, "get started") || Contains(t, "watch demo")
  }

  /** The action for a button whose text content is `buttonText`. */
  function Route(buttonText: string): (a: ButtonAction)
    ensures a.GoTo? ==> a.page == LoginPage
    ensures a.GoTo? <==> StartsSignIn(ToLower(buttonText))
    ensures a == PartnerAlert ==> Contains(ToLower(buttonText), "partner")
  {
    var t := ToLower(buttonText);
    if StartsSignIn(t) then GoTo(LoginPage)
    else if Contains(t, "partner") then PartnerAlert
    else NoAction
  }

  /** Only the login page is ever navigated to, exactly for the sign-in texts, and the sign-in test wins over "partner". */
  lemma RouteChain(buttonText: string)
    ensures var t := ToLower(buttonText);
            && (Route(buttonText).GoTo? <==> StartsSignIn(t))
            && (Route(buttonText).GoTo? ==> Route(buttonText).page == LoginPage)
            && (Route(buttonText) == PartnerAlert <==> !StartsSignIn(t) && Contains(t, "partner"))
            && (Route(buttonText) == NoAction <==> !StartsSignIn(t) && !Contains(t, "partner"))
  {
  }

  /** The routing ignores letter case: an already lower-cased text routes the same way. */
  lemma RouteIgnoresCase(buttonText: string)
    ensures Route(ToLower(buttonText)) == Route(buttonText)
  {
    ToLowerIdempotent(buttonText);
  }

  /** A button reading "Get Started" leads to the login page, whatever else it says. */
  lemma GetStartedGoesToLogin(buttonText: string, i: int)
    requires OccursAt(ToLower(buttonText), "get started", i)
    ensures Route(buttonText) == GoTo(LoginPage)
  {
    ContainsAt(ToLower(buttonText), "get started", i);
  }
}
