/** The bits of an fdevent: the events in the low byte, the state in the high one. */
module FdFlags {
  type flags = bv16

  const FDE_READ: flags := 0x0001
  const FDE_WRITE: flags := 0x0002
  const FDE_ERROR: flags := 0x0004
  const FDE_DONT_CLOSE: flags := 0x0080
  const FDE_EVENTMASK: flags := 0x00ff
  const FDE_STATEMASK: flags := 0xff00
  const FDE_ACTIVE: flags := 0x0100
  const FDE_PENDING: flags := 0x0200

  predicate Has(s: flags, flag: flags) {
    s & flag != 0
  }

  function Masked(s: flags, events: flags): flags {
    (s & FDE_STATEMASK) | events
  }

  function With(s: flags, flag: flags): flags {
    s | flag
  }

  function Without(s: flags, flag: flags): flags {
    s & (0xffff ^ flag)
  }

  /** Event bits and state bits do not touch each other. */
  lemma MaskedFlags(s: flags, events: flags)
    requires events & FDE_STATEMASK == 0
    ensures Has(Masked(s, events), FDE_ACTIVE) == Has(s, FDE_ACTIVE)
    ensures Has(Masked(s, events), FDE_PENDING) == Has(s, FDE_PENDING)
    ensures Has(Masked(s, events), FDE_READ) == Has(events, FDE_READ)
    ensures Has(Masked(s, events), FDE_WRITE) == Has(events, FDE_WRITE)
    ensures Has(Masked(s, events), FDE_ERROR) == Has(events, FDE_ERROR)
    ensures Masked(Masked(s, events), events) == Masked(s, events)
    ensures EventBits(Masked(s, events)) == events
  {
  }

  lemma PendingSet(s: flags)
    ensures Has(With(s, FDE_PENDING), FDE_PENDING)
    ensures Has(With(s, FDE_PENDING), FDE_ACTIVE) == Has(s, FDE_ACTIVE)
    ensures Has(With(s, FDE_PENDING), FDE_READ) == Has(s, FDE_READ)
    ensures Has(With(s, FDE_PENDING), FDE_WRITE) == Has(s, FDE_WRITE)
    ensures Has(With(s, FDE_PENDING), FDE_ERROR) == Has(s, FDE_ERROR)
    ensures EventBits(With(s, FDE_PENDING)) == EventBits(s)
  {
  }

  lemma PendingCleared(s: flags)
    ensures !Has(Without(s, FDE_PENDING), FDE_PENDING)
    ensures Has(Without(s, FDE_PENDING), FDE_ACTIVE) == Has(s, FDE_ACTIVE)
    ensures Has(Without(s, FDE_PENDING), FDE_READ) == Has(s, FDE_READ)
    ensures Has(Without(s, FDE_PENDING), FDE_WRITE) == Has(s, FDE_WRITE)
    ensures Has(Without(s, FDE_PENDING), FDE_ERROR) == Has(s, FDE_ERROR)
    ensures EventBits(Without(s, FDE_PENDING)) == EventBits(s)
  {
  }

  function EventBits(s: flags): (r: flags)
    ensures r & FDE_STATEMASK == 0
  {
    s & FDE_EVENTMASK
  }

  /** What fdevent_set leaves of the pending events of an fdevent: nothing is masked
      when the interest stays as it is. */
  function Kept(interest: flags, events: flags, wanted: flags): flags {
    if EventBits(interest) == EventBits(wanted) then events else Without(events, EventBits(wanted))
  }

  /** fdevent_set means to drop the pending events that are no longer wanted.  It
      keeps what it should if and only if no event is pending, or the interest does
      not change and all that is pending is wanted. */
  lemma WantedEventsAreDropped(interest: flags, events: flags, wanted: flags)
    ensures Kept(interest, events, wanted) == events & EventBits(wanted) <==>
            events == 0 || (EventBits(interest) == EventBits(wanted) && Without(events, EventBits(wanted)) == 0)
  {
    assert events & EventBits(wanted) == Without(events, EventBits(wanted)) <==> events == 0;
    assert events & EventBits(wanted) == events <==> Without(events, EventBits(wanted)) == 0;
    hide Without, EventBits;
  }

  /** Adding and taking away bits, flag by flag. */
  lemma WithTells(s: flags, t: flags)
    ensures Has(With(s, t), FDE_READ) <==> Has(s, FDE_READ) || Has(t, FDE_READ)
    ensures Has(With(s, t), FDE_WRITE) <==> Has(s, FDE_WRITE) || Has(t, FDE_WRITE)
    ensures Has(With(s, t), FDE_ERROR) <==> Has(s, FDE_ERROR) || Has(t, FDE_ERROR)
  {
  }

  lemma WithoutTells(s: flags, t: flags)
    ensures Has(Without(s, t), FDE_READ) <==> Has(s, FDE_READ) && !Has(t, FDE_READ)
    ensures Has(Without(s, t), FDE_WRITE) <==> Has(s, FDE_WRITE) && !Has(t, FDE_WRITE)
    ensures Has(Without(s, t), FDE_ERROR) <==> Has(s, FDE_ERROR) && !Has(t, FDE_ERROR)
  {
  }

  lemma NothingLeft(events: flags)
    ensures Without(0, events) == 0
  {
  }

  lemma MoreEvents(s: flags, t: flags)
    ensures t != 0 ==> With(s, t) != 0
    ensures With(s, 0) == s && With(0, t) == t
  {
  }

  lemma EventBitsTell(s: flags)
    ensures Has(EventBits(s), FDE_READ) == Has(s, FDE_READ)
    ensures Has(EventBits(s), FDE_WRITE) == Has(s, FDE_WRITE)
    ensures Has(EventBits(s), FDE_ERROR) == Has(s, FDE_ERROR)
    ensures Has(EventBits(s), FDE_DONT_CLOSE) == Has(s, FDE_DONT_CLOSE)
  {
  }

  lemma WithTwice(s: flags, t: flags)
    ensures With(With(s, t), t) == With(s, t)
  {
  }

  lemma EventBitsTwice(s: flags)
    ensures EventBits(EventBits(s)) == EventBits(s)
  {
  }
}
