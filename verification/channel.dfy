/** The event channel of muduo/src/channel.hpp (class Channel): the epoll interest
    mask of one file descriptor, the events epoll reported for it, and the rule that
    decides which of its callbacks `handle_event` runs.

    The masks are 32-bit words as in the source, with the Linux `<sys/epoll.h>`
    values of the event bits. A callback is modelled only by whether it is set: an
    empty `std::function` is skipped, a set one is run, and `handle_event` returns
    the sequence of callbacks it runs, in order. */
module Channels {

  const EPOLLIN: bv32 := 0x001
  const EPOLLPRI: bv32 := 0x002
  const EPOLLOUT: bv32 := 0x004
  const EPOLLERR: bv32 := 0x008
  const EPOLLHUP: bv32 := 0x010
  const EPOLLRDHUP: bv32 := 0x2000

  /** The five callback slots of a channel. */
  datatype Handler = Read | Write | Error | Close | Any

  /** A channel: its descriptor, the interest mask `events_`, the reported mask
      `revents_`, and the callbacks currently set. */
  datatype Channel = Channel(fd: int, events: bv32, revents: bv32, installed: set<Handler>)

  /** `bits` are all set in `mask`. */
  predicate Has(mask: bv32, bits: bv32)
  {
    mask & bits == bits
  }

  /** The constructor: nothing watched, nothing reported, no callback set. */
  function New(fd: int): (c: Channel)
    ensures c.fd == fd && c.revents == 0
    ensures !ReadEnabled(c) && !WriteEnabled(c)
    ensures c.events == 0
    ensures c.installed == {}
  {
    Channel(fd, 0, 0, {})
  }

  /** `set_revents`: record what epoll reported; the interest mask is untouched. */
  function SetRevents(c: Channel, revents: bv32): (r: Channel)
    ensures r.revents == revents
    ensures r.fd == c.fd && r.events == c.events && r.installed == c.installed
  {
    c.(revents := revents)
  }

  /** `set_read_callback` and its siblings: `present` says whether the function
      passed in is non-empty. Only the named slot changes. */
  function SetCallback(c: Channel, slot: Handler, present: bool): (r: Channel)
    ensures slot in r.installed <==> present
    ensures forall other :: other != slot ==> (other in r.installed <==> other in c.installed)
    ensures r.fd == c.fd && r.events == c.events && r.revents == c.revents
  {
    c.(installed := if present then c.installed + {slot} else c.installed - {slot})
  }

  /** `read_enabled`: the IN bit of the interest mask. */
  predicate ReadEnabled(c: Channel): (b: bool)
    ensures b <==> Has(c.events, EPOLLIN)
  {
    c.events & EPOLLIN != 0
  }

  /** `write_enabled`: the OUT bit of the interest mask. */
  predicate WriteEnabled(c: Channel): (b: bool)
    ensures b <==> Has(c.events, EPOLLOUT)
  {
    c.events & EPOLLOUT != 0
  }

  /** `enable_read`: the IN bit is set; every other bit keeps its value. */
  function EnableRead(c: Channel): (r: Channel)
    ensures ReadEnabled(r)
    ensures r.events & !EPOLLIN == c.events & !EPOLLIN
    ensures WriteEnabled(r) == WriteEnabled(c)
    ensures r.fd == c.fd && r.revents == c.revents && r.installed == c.installed
  {
    c.(events := c.events | EPOLLIN)
  }

  /** `enable_write`: the OUT bit is set; every other bit keeps its value. */
  function EnableWrite(c: Channel): (r: Channel)
    ensures WriteEnabled(r)
    ensures r.events & !EPOLLOUT == c.events & !EPOLLOUT
    ensures ReadEnabled(r) == ReadEnabled(c)
    ensures r.fd == c.fd && r.revents == c.revents && r.installed == c.installed
  {
    c.(events := c.events | EPOLLOUT)
  }

  /** `disable_read`: the IN bit is cleared; every other bit keeps its value. */
  function DisableRead(c: Channel): (r: Channel)
    ensures !ReadEnabled(r)
    ensures r.events & !EPOLLIN == c.events & !EPOLLIN
    ensures WriteEnabled(r) == WriteEnabled(c)
    ensures r.fd == c.fd && r.revents == c.revents && r.installed == c.installed
  {
    c.(events := c.events & !EPOLLIN)
  }

  /** `disable_write`: the OUT bit is cleared; every other bit keeps its value. */
  function DisableWrite(c: Channel): (r: Channel)
    ensures !WriteEnabled(r)
    ensures r.events & !EPOLLOUT == c.events & !EPOLLOUT
    ensures ReadEnabled(r) == ReadEnabled(c)
    ensures r.fd == c.fd && r.revents == c.revents && r.installed == c.installed
  {
    c.(events := c.events & !EPOLLOUT)
  }

  /** `disable_all`: no event is watched any more. */
  function DisableAll(c: Channel): (r: Channel)
    ensures !ReadEnabled(r) && !WriteEnabled(r)
    ensures r.events == 0
    ensures r.fd == c.fd && r.revents == c.revents && r.installed == c.installed
  {
    c.(events := 0)
  }

  /** The callback `h` if it is set, nothing otherwise. */
  function IfSet(installed: set<Handler>, h: Handler): (s: seq<Handler>)
    ensures s == [] || s == [h]
    ensures s == [h] <==> h in installed
  {
    if h in installed then [h] else []
  }

  /** The reported mask contains `bit`. */
  predicate On(mask: bv32, bit: bv32)
  {
    mask & bit != 0
  }

  /** Data, peer shutdown or urgent data: the reading branch applies. */
  predicate Readable(revents: bv32)
  {
    On(revents, EPOLLIN) || On(revents, EPOLLRDHUP) || On(revents, EPOLLPRI)
  }

  /** The reading branch of `handle_event`, applied when `reading` holds: the read
      callback and then the any-event callback, each if set. */
  function ReadingCalls(installed: set<Handler>, reading: bool): (calls: seq<Handler>)
    ensures Read in calls <==> reading && Read in installed
    ensures Read in calls ==> calls[0] == Read
    ensures forall h :: h in calls ==> h == Read || h == Any
    ensures multiset(calls)[Read] <= 1
    ensures |calls| <= 2
    ensures reading ==> |calls| == (if Read in installed then 1 else 0) + (if Any in installed then 1 else 0)
    ensures reading && Any in installed ==> |calls| > 0 && calls[|calls| - 1] == Any
    ensures multiset(calls)[Any] == if reading && Any in installed then 1 else 0
    ensures forall h :: h in calls ==> h in installed
  {
    if reading then IfSet(installed, Read) + IfSet(installed, Any) else []
  }

  /** The second branch chain of `handle_event`, for the OUT, ERR and HUP bits: OUT
      runs the write callback and then the any-event callback; otherwise ERR runs the
      error callback; otherwise HUP runs the close callback. */
  function ReportCalls(installed: set<Handler>, out: bool, err: bool, hup: bool): (calls: seq<Handler>)
    ensures Read !in calls && |calls| <= 2
    ensures Write in calls ==> calls[0] == Write
    ensures out ==> |calls| == (if Write in installed then 1 else 0) + (if Any in installed then 1 else 0)
    ensures out && Any in installed ==> |calls| > 0 && calls[|calls| - 1] == Any
    ensures forall h :: multiset(calls)[h] <= 1
    ensures Write in calls <==> out && Write in installed
    ensures Error in calls <==> !out && err && Error in installed
    ensures Close in calls <==> !out && !err && hup && Close in installed
    ensures Any in calls <==> out && Any in installed
    ensures multiset(calls)[Any] == if out && Any in installed then 1 else 0
    ensures forall h :: h in calls ==> h in installed
  {
    if out then IfSet(installed, Write) + IfSet(installed, Any)
    else if err then IfSet(installed, Error)
    else if hup then IfSet(installed, Close)
    else []
  }

  /** `handle_event`: the callbacks run, in order. The reading branch runs the read
      callback and then the any-event callback. Independently, OUT runs the write
      callback and then the any-event callback; only without OUT does ERR run the
      error callback, and only without OUT and ERR does HUP run the close callback. */
  function HandleEvent(c: Channel): (calls: seq<Handler>)
    // the read callback runs exactly when the reading branch applies, and first
    ensures Read in calls <==> Readable(c.revents) && Read in c.installed
    ensures Read in calls ==> calls[0] == Read
    // the write callback runs exactly on OUT
    ensures Write in calls <==> On(c.revents, EPOLLOUT) && Write in c.installed
    // the error callback runs on ERR only when OUT is absent
    ensures Error in calls <==> !On(c.revents, EPOLLOUT) && On(c.revents, EPOLLERR) && Error in c.installed
    // the close callback runs on HUP only when neither OUT nor ERR is present
    ensures Close in calls <==>
              !On(c.revents, EPOLLOUT) && !On(c.revents, EPOLLERR) && On(c.revents, EPOLLHUP)
              && Close in c.installed
    // only set callbacks run
    ensures forall h :: h in calls ==> h in c.installed
    ensures |calls| <= 4
  {
    ReadingCalls(c.installed, Readable(c.revents))
      + ReportCalls(c.installed, On(c.revents, EPOLLOUT), On(c.revents, EPOLLERR), On(c.revents, EPOLLHUP))
  }

  /** The any-event callback of `handle_event` runs once for the reading branch and
      once for OUT. An error or a hang-up alone never runs it, and the error and
      close callbacks never both run. */
  lemma HandleEventAny(c: Channel)
    ensures multiset(HandleEvent(c))[Any] ==
              if Any !in c.installed then 0
              else (if Readable(c.revents) then 1 else 0) + (if On(c.revents, EPOLLOUT) then 1 else 0)
    ensures Error in HandleEvent(c) || Close in HandleEvent(c) ==> Any !in HandleEvent(c) || Readable(c.revents)
    ensures !(Error in HandleEvent(c) && Close in HandleEvent(c))
  {
    var a := ReadingCalls(c.installed, Readable(c.revents));
    var b := ReportCalls(c.installed, On(c.revents, EPOLLOUT), On(c.revents, EPOLLERR), On(c.revents, EPOLLHUP));
    assert HandleEvent(c) == a + b;
    assert multiset(a + b)[Any] == multiset(a)[Any] + multiset(b)[Any];
  }

  /** No callback of `handle_event` but the any-event one runs more than once. */
  lemma HandleEventOnce(c: Channel)
    ensures forall h :: h != Any ==> multiset(HandleEvent(c))[h] <= 1
  {
    var a := ReadingCalls(c.installed, Readable(c.revents));
    var b := ReportCalls(c.installed, On(c.revents, EPOLLOUT), On(c.revents, EPOLLERR), On(c.revents, EPOLLHUP));
    assert HandleEvent(c) == a + b;
    forall h | h != Any
      ensures multiset(a + b)[h] <= 1
    {
      assert multiset(a + b)[h] == multiset(a)[h] + multiset(b)[h];
      if h != Read {
        assert h !in a;
      }
    }
  }

  /** In the reading branch the any-event callback directly follows the read
      callback, or opens the list when no read callback is set. */
  lemma HandleEventReadOrder(c: Channel)
    ensures Readable(c.revents) && Any in c.installed ==>
              |HandleEvent(c)| > (if Read in c.installed then 1 else 0)
              && HandleEvent(c)[if Read in c.installed then 1 else 0] == Any
  {
    var a := ReadingCalls(c.installed, Readable(c.revents));
    var b := ReportCalls(c.installed, On(c.revents, EPOLLOUT), On(c.revents, EPOLLERR), On(c.revents, EPOLLHUP));
    assert HandleEvent(c) == a + b;
  }

  /** On OUT the write callback and then the any-event callback close the list. */
  lemma HandleEventWriteOrder(c: Channel)
    ensures On(c.revents, EPOLLOUT) && Any in c.installed ==>
              |HandleEvent(c)| > 0 && HandleEvent(c)[|HandleEvent(c)| - 1] == Any
    ensures On(c.revents, EPOLLOUT) && Write in c.installed ==>
              |HandleEvent(c)| >= (if Any in c.installed then 2 else 1)
              && HandleEvent(c)[|HandleEvent(c)| - (if Any in c.installed then 2 else 1)] == Write
  {
    var a := ReadingCalls(c.installed, Readable(c.revents));
    var b := ReportCalls(c.installed, On(c.revents, EPOLLOUT), On(c.revents, EPOLLERR), On(c.revents, EPOLLHUP));
    assert HandleEvent(c) == a + b;
    if On(c.revents, EPOLLOUT) && Write in c.installed {
      assert b[0] == Write;
      assert (a + b)[|a + b| - |b|] == b[0];
    }
  }

  /** Disabling the read interest undoes enabling it. */
  lemma DisableReadUndoesEnable(c: Channel)
    ensures DisableRead(EnableRead(c)) == DisableRead(c)
  {
    assert (c.events | EPOLLIN) & !EPOLLIN == c.events & !EPOLLIN;
  }

  /** Disabling the write interest undoes enabling it. */
  lemma DisableWriteUndoesEnable(c: Channel)
    ensures DisableWrite(EnableWrite(c)) == DisableWrite(c)
  {
    assert (c.events | EPOLLOUT) & !EPOLLOUT == c.events & !EPOLLOUT;
  }

  /** The two interests are independent: enabling them in either order gives the
      same mask. */
  lemma EnableCommutes(c: Channel)
    ensures EnableRead(EnableWrite(c)) == EnableWrite(EnableRead(c))
  {
  }

  /** A hang-up reported together with an error, or together with writability, never
      reaches the close callback. */
  lemma HangUpShadowed(c: Channel)
    requires On(c.revents, EPOLLHUP)
    requires On(c.revents, EPOLLERR) || On(c.revents, EPOLLOUT)
    ensures Close !in HandleEvent(c)
  {
  }

  /** With nothing reported, nothing runs. */
  lemma QuietChannel(c: Channel)
    requires c.revents == 0
    ensures HandleEvent(c) == []
  {
  }
}
