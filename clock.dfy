/**
 * The application clock shared by the window engine and the contents it
 * builds. Its `appTime` is what the caller constructed it with; the engine only reads it.
 */
module Clock {

  class Time {
    var appTime: int

    constructor (appTime: int)
      ensures this.appTime == appTime
    {
      this.appTime := appTime;
    }
  }
}
