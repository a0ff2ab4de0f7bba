/** The browser's sessionStorage as the page uses it: only the 'forceUpdate' key, which
    outlives `location.reload()`. */
module PageSession {

  class SessionStorage {
    /** `sessionStorage.getItem('forceUpdate') === 'true'`. */
    var forceUpdate: bool

    constructor ()
      ensures !forceUpdate
    {
      forceUpdate := false;
    }
  }
}
