/** The wall clock scraper.py reads through time.time() and datetime.now(),
    as an integer number of milliseconds. */
module Time {

  class Clock {
    var now: int

    constructor (start: int)
      ensures now == start
    {
      now := start;
    }

    /** A network call takes some time the model does not know. */
    method Elapse()
      modifies this
      ensures now >= old(now)
    {
      var spent: nat :| true;
      now := now + spent;
    }

    /** time.sleep until `t`; nothing happens when `t` has already passed. */
    method SleepUntil(t: int)
      modifies this
      ensures now == if t > old(now) then t else old(now)
    {
      if t > now {
        now := t;
      }
    }
  }
}
