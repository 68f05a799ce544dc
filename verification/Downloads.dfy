/** Range download: a task that tracks out-of-order completion of a window of heights, and the session that asks for one
    window after another. */
module Downloads {
  import opened Wrappers

  datatype TaskError = ErrTaskRunning | ErrStartBigThanEnd

  /** Every height from a up to but not including b is in the set. */
  ghost predicate AllIn(heights: set<int>, a: int, b: int) {
    forall h {:trigger h in heights} | a <= h < b :: h in heights
  }

  lemma WindowDone(done: set<int>, reported: set<int>, sessionStart: int, first: int, end: int)
    requires AllIn(done, sessionStart, first) && reported <= done && AllIn(reported, first, end + 1)
    ensures AllIn(done, sessionStart, end + 1)
  {
    forall h | sessionStart <= h < end + 1 ensures h in done {
      assert h >= first ==> h in reported;
    }
  }

  class Task {
    var start: int
    var end: int
    var isRunning: bool
    var cb: bool         // a completion callback is attached
    var timeoutCb: bool  // a timeout callback is attached
    var doneList: set<int>
    ghost var first: int
    ghost var reported: set<int>

    /** While running, start is the least height of the window not yet reported. */
    ghost predicate Valid()
      reads this
    {
      && (isRunning ==>
            && first <= start <= end && AllIn(reported, first, start) && start !in reported
            && (forall h | h in reported :: first <= h <= end)
            && (forall h | start <= h <= end :: h in doneList <==> h in reported))
      && (forall h | h in reported :: first <= h <= end)
    }

    constructor ()
      ensures Valid() && !isRunning
    {
      start, end, isRunning, cb, timeoutCb, doneList := 0, -1, false, false, false, {};
      first, reported := 0, {};
    }

    predicate InProgress()
      reads this`isRunning
    {
      isRunning
    }

    /** Starts a window unless one is running or the window is empty. */
    method Start(s: int, e: int, cb: bool, timeoutCb: bool) returns (err: Option<TaskError>)
      requires Valid()
      modifies this
      ensures Valid()
      ensures err == if old(isRunning) then Some(ErrTaskRunning) else if s > e then Some(ErrStartBigThanEnd) else None
      ensures err.None? ==>
                && isRunning && start == first == s && end == e && reported == {}
                && this.cb == cb && this.timeoutCb == timeoutCb
      ensures err.Some? ==> unchanged(this)
    {
      if isRunning {
        return Some(ErrTaskRunning);
      }
      if s > e {
        return Some(ErrStartBigThanEnd);
      }
      isRunning, start, end := true, s, e;
      this.cb, this.timeoutCb := cb, timeoutCb;
      doneList := {};
      first, reported := s, {};
      err := None;
    }

    /** Reports a height. The task stops exactly when every height of the window has been reported, and only then does
        its completion callback fire, once. */
    method Done(height: int) returns (fired: bool)
      requires Valid()
      modifies this`start, this`isRunning, this`doneList, this`reported
      ensures Valid()
      ensures reported == if old(isRunning) && first <= height <= end then old(reported) + {height} else old(reported)
      ensures isRunning <==> old(isRunning) && exists h :: first <= h <= end && h !in reported
      ensures fired <==> old(isRunning) && !isRunning && cb
      ensures old(isRunning) && !isRunning ==> AllIn(reported, first, end + 1)
    {
      fired := false;
      if !isRunning {
        return;
      }
      if start <= height <= end {
        ghost var was := reported;
        reported := reported + {height};
        fired := Advance(height, was);
      } else {
        assert first <= height <= end ==> height in reported;
        assert reported + {height} == reported || !(first <= height <= end);
      }
      assert isRunning ==> first <= start <= end && start !in reported;
    }

    /** Records a height; when it is the first missing one, moves start past everything already recorded. */
    method Advance(height: int, ghost was: set<int>) returns (fired: bool)
      requires isRunning && first <= start <= height <= end && AllIn(was, first, start) && start !in was
      requires reported == was + {height} && (forall h | h in was :: first <= h <= end)
      requires forall h | start <= h <= end :: h in doneList <==> h in was
      modifies this`start, this`isRunning, this`doneList
      ensures Valid()
      ensures isRunning || (start == end + 1 && AllIn(reported, first, end + 1))
      ensures fired <==> !isRunning && cb
    {
      fired := false;
      if height == start {
        start := start + 1;
        var i := start;
        while i <= end
          invariant first < start == i <= end + 1 && AllIn(reported, first, start) && isRunning
          invariant forall h | start <= h <= end :: h in doneList <==> h in was
          decreases end - i
        {
          if i !in doneList {
            break;
          }
          doneList := doneList - {i};
          start := i + 1;
          i := i + 1;
        }
        if start > end {
          fired := Stop(true);
        }
      }
      doneList := doneList + {height};
    }

    /** Stops a running task; the completion callback fires when it is attached and asked for. */
    method Stop(runCb: bool) returns (fired: bool)
      requires isRunning
      modifies this`isRunning
      ensures !isRunning && fired == (runCb && cb)
    {
      isRunning := false;
      fired := cb && runCb;
    }

    /** The timer runs out: a running task stops without its completion callback, and the timeout callback, if attached,
        gets the least height not yet reported. */
    method Timeout() returns (height: Option<int>, fired: bool)
      requires Valid()
      modifies this`isRunning
      ensures Valid() && !isRunning && !fired
      ensures height == if old(isRunning) && timeoutCb then Some(start) else None
    {
      height, fired := None, false;
      if isRunning {
        fired := Stop(false);
        if timeoutCb {
          height := Some(start);
        }
      }
    }

    /** Stops the task without its completion callback. */
    method Cancel() returns (stopped: bool, fired: bool)
      requires Valid()
      modifies this`isRunning
      ensures Valid() && !isRunning && stopped == old(isRunning) && !fired
    {
      stopped, fired := isRunning, false;
      if isRunning {
        fired := Stop(false);
      }
    }
  }

  datatype Window = Window(start: int, end: int)

  ghost predicate Within(w: Window, h: int) {
    w.start <= h <= w.end
  }

  /** A window asked for in order: as large as allowed, or all that was left, and every height from floor up to it was
      done. */
  ghost predicate Asked(w: Window, floor: int, sessionEnd: int, done: set<int>, max: int) {
    && floor <= w.start <= w.end <= sessionEnd && w.end - w.start + 1 <= max
    && (w.end == sessionEnd || w.end - w.start + 1 == max)
    && AllIn(done, floor, w.start)
  }

  ghost predicate AskedFrom(asked: seq<Window>, mark: nat, floor: int, sessionEnd: int, done: set<int>, max: int) {
    forall i | mark <= i < |asked| :: Asked(asked[i], floor, sessionEnd, done, max)
  }

  class Downloader {
    const maxFetchBlockNum: int
    const task: Task
    var startHeight: int  // next height to ask for; -1 when nothing is left
    var endHeight: int
    var pids: Option<seq<string>>
    var pendingCbs: nat           // completion callbacks started and not yet run
    var pendingTimeouts: seq<int> // timeout callbacks started and not yet run
    ghost var sessionStart: int
    ghost var sessionEnd: int
    ghost var done: set<int>      // heights reported in the session so far
    ghost var asked: seq<Window>  // every window asked for in the session
    ghost var undisturbed: bool   // from floor on, nothing of an earlier session interferes
    ghost var floor: int
    ghost var mark: nat           // the requests asked for since then
    ghost var abandoned: bool     // cancelled, no peer left, or the last window timed out

    /** While a remainder is left, exactly one of these drives an undisturbed session: a running window or a pending
        callback. When none is left, callbacks do nothing, and any number may be pending. */
    ghost predicate InStep()
      reads this, task
    {
      && 0 <= floor <= sessionEnd
      && AskedFrom(asked, mark, floor, sessionEnd, done, maxFetchBlockNum)
      && (abandoned ==> AtRest())
      && (Requestable() ==> pendingCbs + |pendingTimeouts| + (if task.isRunning then 1 else 0) <= 1)
      && (task.isRunning ==>
            && floor <= task.first && task.end <= sessionEnd
            && AllIn(done, floor, task.first) && task.reported <= done
            && if task.cb
               then task.timeoutCb && Requestable() && startHeight == task.end + 1
               else !task.timeoutCb && !Requestable() && task.end == sessionEnd)
      && (Requestable() && pendingCbs == 1 ==> floor <= startHeight && AllIn(done, floor, startHeight))
      && (Requestable() && pendingTimeouts != [] ==>
            floor <= pendingTimeouts[0] < startHeight && AllIn(done, floor, pendingTimeouts[0]))
      && (AtRest() && !abandoned ==> AllIn(done, floor, sessionEnd + 1))
    }

    ghost predicate Valid()
      reads this, task
    {
      maxFetchBlockNum > 0 && task.Valid() && Sound() && (undisturbed ==> InStep())
    }

    /** Heights to ask for are in order and not negative, and belong to the session; a running window has both callbacks
        or none. */
    ghost predicate Sound()
      reads this`startHeight, this`endHeight, this`pids, this`pendingTimeouts, this`sessionEnd,
            task`isRunning, task`first, task`cb, task`timeoutCb
    {
      && (pids.Some? ==> Requestable())
      && (Requestable() ==> 0 <= startHeight <= endHeight == sessionEnd)
      && (task.isRunning ==> 0 <= task.first && task.cb == task.timeoutCb)
      && (forall i | 0 <= i < |pendingTimeouts| :: 0 <= pendingTimeouts[i])
    }

    constructor (maxFetchBlockNum: int)
      requires maxFetchBlockNum > 0
      ensures Valid() && Quiet() && fresh(task) && this.maxFetchBlockNum == maxFetchBlockNum
    {
      this.maxFetchBlockNum := maxFetchBlockNum;
      task := new Task();
      startHeight, endHeight, pids, pendingCbs, pendingTimeouts := -1, -1, None, 0, [];
      sessionStart, sessionEnd, done, asked, undisturbed, floor, mark, abandoned := 0, 0, {}, [], false, 0, 0, false;
    }

    /** Nothing is running or about to run. */
    predicate Quiet()
      reads this`pendingCbs, this`pendingTimeouts, task`isRunning
    {
      !task.isRunning && pendingCbs == 0 && pendingTimeouts == []
    }

    /** Nothing runs, and nothing that is about to run can ask for anything. */
    predicate AtRest()
      reads this`startHeight, this`endHeight, this`pids, this`pendingCbs, this`pendingTimeouts, task`isRunning
    {
      !task.isRunning && (Requestable() ==> Quiet())
    }

    /** A single callback is all that is pending, and nothing runs. */
    predicate Alone()
      reads this`pendingCbs, this`pendingTimeouts, task`isRunning
    {
      !task.isRunning && pendingCbs + |pendingTimeouts| == 1
    }

    /** There is a remainder to ask for. */
    predicate Requestable()
      reads this`startHeight, this`endHeight, this`pids
    {
      startHeight != -1 && endHeight != -1 && pids.Some?
    }

    method DefaultDownLoadInfo()
      modifies this`startHeight, this`endHeight, this`pids
      ensures startHeight == endHeight == -1 && pids == None
    {
      startHeight, endHeight, pids := -1, -1, None;
    }

    method InitDownLoadInfo(s: int, e: int, newPids: Option<seq<string>>)
      modifies this`startHeight, this`endHeight, this`pids
      ensures startHeight == s && endHeight == e && pids == newPids
    {
      startHeight, endHeight, pids := s, e, newPids;
    }

    /** The last height of a request: as many as allowed, or all that are left. */
    function WindowEnd(start: int, end: int): (last: int)
      ensures maxFetchBlockNum > 0 && start <= end ==>
                && start <= last <= end && last - start + 1 <= maxFetchBlockNum
                && (last == end || last - start + 1 == maxFetchBlockNum)
    {
      if end - start >= maxFetchBlockNum then start + maxFetchBlockNum - 1 else end
    }

    /** The remainder after a request at a height, whether or not its window was asked for. */
    twostate predicate Moved(start: int)
      reads this`startHeight, this`endHeight, this`pids
    {
      if WindowEnd(start, old(endHeight)) < old(endHeight)
      then
        && Requestable() && startHeight == WindowEnd(start, old(endHeight)) + 1 && endHeight == old(endHeight)
        && (old(pids.Some? && pids.value != []) ==> pids.value != [])
      else !Requestable()
    }

    /** The window asked for by a request at a height that found the task idle. */
    twostate predicate Started(start: int)
      reads this`asked, task
    {
      && task.isRunning && task.first == task.start == start && task.reported == {}
      && task.end == WindowEnd(start, old(endHeight)) && task.cb == task.timeoutCb == (task.end < old(endHeight))
      && asked == old(asked) + [Window(start, task.end)]
    }

    /** Asks for the next window. Callbacks are attached when heights remain after it; the start of the remainder is
        recorded before the task is started, whether or not it starts. */
    method FetchBlock(start: int, end: int) returns (err: Option<TaskError>)
      requires task.Valid() && maxFetchBlockNum > 0 && end == endHeight && pids.Some?
      requires endHeight != -1 && start >= 0
      modifies this`startHeight, this`endHeight, this`pids, this`asked, task
      ensures task.Valid()
      ensures err == if end < start then Some(ErrStartBigThanEnd)
                     else if old(task.isRunning) then Some(ErrTaskRunning) else None
      ensures err == Some(ErrStartBigThanEnd) ==> unchanged(this)
      ensures start <= end ==> Moved(start) && (Requestable() || (startHeight == endHeight == -1 && pids.None?))
      ensures err.Some? ==> asked == old(asked) && unchanged(task)
      ensures err.None? ==> Started(start)
    {
      var blockCount := end - start;
      if blockCount < 0 {
        return Some(ErrStartBigThanEnd);
      }
      var requestEnd := if blockCount >= maxFetchBlockNum then start + maxFetchBlockNum - 1 else end;
      var more := requestEnd < endHeight;
      if more {
        startHeight := requestEnd + 1;
        var fast: bool := *;
        if fast {
          var best: seq<string> := *;
          if best != [] {
            pids := Some(best);
          }
        }
      } else {
        DefaultDownLoadInfo();
      }
      err := task.Start(start, requestEnd, more, more);
      if err.Some? {
        return;
      }
      asked := asked + [Window(start, requestEnd)];
    }

    /** An undisturbed session may go on at a height: everything below was done, and nothing else goes on or will find a
        remainder. */
    ghost predicate MayAsk(height: int)
      reads this, task
    {
      && !task.isRunning && (Quiet() || WindowEnd(height, endHeight) >= endHeight)
      && !abandoned && 0 <= floor <= height
      && AllIn(done, floor, height)
      && AskedFrom(asked, mark, floor, sessionEnd, done, maxFetchBlockNum)
    }

    /** Asks for the next window of the session, if there is one. While a window is running the request fails, but the
        start of the remainder has moved past the window that was not asked for. */
    method ReqDownLoadBlocks()
      requires task.Valid() && maxFetchBlockNum > 0 && Sound()
      requires undisturbed ==> if Requestable() then MayAsk(startHeight) else InStep()
      modifies this`startHeight, this`endHeight, this`pids, this`asked, task
      ensures Valid()
      ensures old(Requestable()) ==> Moved(old(startHeight))
      ensures old(Requestable() && !task.isRunning) ==> Started(old(startHeight))
      ensures !old(Requestable()) ==> unchanged(this) && unchanged(task)
      ensures old(task.isRunning) ==> asked == old(asked) && unchanged(task)
    {
      if startHeight != -1 && endHeight != -1 && pids.Some? {
        FetchNext();
      }
    }

    /** Fetches from the start of the remainder. */
    method FetchNext()
      requires task.Valid() && maxFetchBlockNum > 0 && Sound() && Requestable()
      requires undisturbed ==> MayAsk(startHeight)
      modifies this`startHeight, this`endHeight, this`pids, this`asked, task
      ensures Valid()
      ensures Moved(old(startHeight))
      ensures !old(task.isRunning) ==> Started(old(startHeight))
      ensures old(task.isRunning) ==> asked == old(asked) && unchanged(task)
    {
      var err := FetchBlock(startHeight, endHeight);
    }

    /** Starts a session. When the task is idle its first window is asked for. It is undisturbed when nothing of an
        earlier session is left, and also when it has no more than that one window. */
    method ProcDownLoadBlocks(s: int, e: int, newPids: Option<seq<string>>)
      requires Valid() && 0 <= s <= e
      modifies this, task
      ensures Valid() && undisturbed == old(Quiet() || (!task.isRunning && WindowEnd(s, e) >= e))
      ensures sessionStart == floor == s && sessionEnd == e && done == {} && mark == 0 && abandoned == newPids.None?
      ensures pendingCbs == old(pendingCbs) && pendingTimeouts == old(pendingTimeouts)
      ensures newPids.Some? && !old(task.isRunning) ==>
                && asked == [Window(s, WindowEnd(s, e))] && task.isRunning && task.reported == {}
                && task.first == task.start == s && task.end == WindowEnd(s, e)
                && task.cb == task.timeoutCb == (task.end < e)
      ensures newPids.Some? && WindowEnd(s, e) < e ==>
                && Requestable() && startHeight == WindowEnd(s, e) + 1 && endHeight == e
                && (newPids.value != [] ==> pids.value != [])
      ensures newPids.None? || WindowEnd(s, e) >= e ==> !Requestable()
      ensures newPids.None? || old(task.isRunning) ==> asked == [] && unchanged(task)
    {
      OpenSession(s, e, newPids);
      if undisturbed {
        MayOpen();
      }
      ReqDownLoadBlocks();
    }

    /** Forgets the last session and records the next one. */
    method OpenSession(s: int, e: int, newPids: Option<seq<string>>)
      requires Valid() && 0 <= s <= e
      modifies this`startHeight, this`endHeight, this`pids, this`sessionStart, this`sessionEnd, this`done, this`asked,
               this`floor, this`mark, this`undisturbed, this`abandoned
      ensures task.Valid() && Sound() && startHeight == s && endHeight == e && pids == newPids
      ensures undisturbed == old(Quiet() || (!task.isRunning && WindowEnd(s, e) >= e))
      ensures sessionStart == floor == s && sessionEnd == e && done == {} && asked == [] && mark == 0
      ensures abandoned == newPids.None?
    {
      ghost var safe := Quiet() || (!task.isRunning && WindowEnd(s, e) >= e);
      DefaultDownLoadInfo();
      InitDownLoadInfo(s, e, newPids);
      sessionStart, sessionEnd, done, asked, floor, mark := s, e, {}, [], s, 0;
      undisturbed, abandoned := safe, newPids.None?;
    }

    /** A session that has just been opened with nothing left over may ask for its first window. */
    lemma MayOpen()
      requires Sound() && asked == [] && mark == 0 && 0 <= startHeight == floor <= endHeight == sessionEnd
      requires (abandoned <==> pids.None?) && !task.isRunning
      requires Quiet() || WindowEnd(startHeight, endHeight) >= endHeight
      ensures if Requestable() then MayAsk(startHeight) else InStep()
    {
    }

    // ----- events -----

    /** A block of some height arrived. */
    method ReportDone(height: int)
      requires Valid()
      modifies this`done, this`pendingCbs, task`start, task`isRunning, task`doneList, task`reported
      ensures Valid()
      ensures var counts := old(task.isRunning) && task.first <= height <= task.end;
              && done == (if counts then old(done) + {height} else old(done))
              && task.reported == (if counts then old(task.reported) + {height} else old(task.reported))
      ensures task.isRunning <==> old(task.isRunning) && exists h :: task.first <= h <= task.end && h !in task.reported
      ensures pendingCbs == old(pendingCbs) + if old(task.isRunning) && !task.isRunning && task.cb then 1 else 0
      ensures undisturbed && old(task.isRunning) && !task.isRunning && !task.cb && !abandoned ==>
                AllIn(done, floor, sessionEnd + 1)
    {
      ghost var running := task.isRunning;
      ghost var counts := task.isRunning && task.first <= height <= task.end;
      var fired := task.Done(height);
      if counts {
        done := done + {height};
      }
      if running && undisturbed && !task.isRunning {
        WindowDone(done, task.reported, floor, task.first, task.end);
      }
      if fired {
        pendingCbs := pendingCbs + 1;
      }
    }

    /** From the height about to be asked for, a disturbed session is an undisturbed one. */
    ghost method Rebase()
      requires !undisturbed && Quiet() && Requestable()
      modifies this`floor, this`mark, this`undisturbed, this`abandoned
      ensures floor == startHeight && mark == |asked| && undisturbed && !abandoned
    {
      floor, mark, undisturbed, abandoned := startHeight, |asked|, true, false;
    }

    /** A completion callback runs. With the task idle, the next window is asked for; in a disturbed session with
        nothing else going on, that window starts the undisturbed rest. While a window is running, nothing is asked for,
        and the remainder starts past a window that no request is left for. */
    method RunCallback()
      requires Valid() && pendingCbs > 0
      modifies this, task
      ensures Valid() && pendingCbs == old(pendingCbs) - 1 && pendingTimeouts == old(pendingTimeouts)
      ensures SameSession()
      ensures old(Requestable()) ==> Moved(old(startHeight))
      ensures old(Requestable() && !task.isRunning) ==> Started(old(startHeight))
      ensures old(task.isRunning) ==> asked == old(asked) && unchanged(task)
      ensures !old(Requestable()) ==>
                unchanged(this`asked) && unchanged(this`undisturbed) && unchanged(task) && !Requestable()
      ensures old(undisturbed) ==> undisturbed && floor == old(floor) && mark == old(mark)
      ensures !old(undisturbed) ==> (undisturbed <==> old(Alone() && Requestable()))
      ensures !old(undisturbed) && undisturbed ==> floor == old(startHeight) && mark == |old(asked)|
    {
      TakeCallback();
      ReqDownLoadBlocks();
    }

    /** Takes a completion callback off; in a disturbed session with nothing else going on, the rest starts here. */
    method TakeCallback()
      requires Valid() && pendingCbs > 0
      modifies this`pendingCbs, this`floor, this`mark, this`undisturbed, this`abandoned
      ensures Sound() && pendingCbs == old(pendingCbs) - 1
      ensures undisturbed ==> if Requestable() then MayAsk(startHeight) else InStep()
      ensures old(undisturbed) ==> undisturbed && floor == old(floor) && mark == old(mark)
      ensures !old(undisturbed) ==> (undisturbed <==> old(Alone() && Requestable()))
      ensures !old(undisturbed) && undisturbed ==> floor == startHeight && mark == |asked|
    {
      pendingCbs := pendingCbs - 1;
      if !undisturbed && Quiet() && Requestable() { Rebase(); }
    }

    twostate predicate SameSession()
      reads this`sessionStart, this`sessionEnd, this`done
    {
      sessionStart == old(sessionStart) && sessionEnd == old(sessionEnd) && done == old(done)
    }

    /** The timer of the running window runs out. */
    method TimerFires()
      requires Valid()
      modifies this`pendingTimeouts, this`abandoned, task`isRunning
      ensures Valid() && !task.isRunning
      ensures pendingTimeouts == old(pendingTimeouts) + if old(task.isRunning) && task.timeoutCb then [task.start]
                else []
      ensures abandoned == (old(abandoned) || (old(task.isRunning) && !task.timeoutCb))
    {
      if task.isRunning && !task.timeoutCb {
        abandoned := true;
      }
      var height, fired := task.Timeout();
      if height.Some? {
        pendingTimeouts := pendingTimeouts + [height.value];
      }
    }

    /** Where a request after a timeout starts. */
    function Back(height: int): (start: int)
      reads this`startHeight
      ensures start <= height && start <= startHeight && (start == height || start == startHeight)
    {
      if height < startHeight then height else startHeight
    }

    /** A timeout callback runs: the session goes back to the first height it missed, unless none of its peers is left.
        While a window is running, nothing is asked for, and the remainder starts past the window that would have
        been. */
    method DownLoadTimeOutProc(peers: set<string>)
      requires Valid() && pendingTimeouts != []
      modifies this, task
      ensures Valid() && pendingCbs == old(pendingCbs) && pendingTimeouts == old(pendingTimeouts)[1..]
      ensures SameSession()
      ensures old(Requestable() && !NoPeerLeft(peers)) ==> Moved(old(Back(pendingTimeouts[0])))
      ensures old(Requestable() && !task.isRunning) && (exists p :: p in old(pids).value && p in peers) ==>
                Started(old(Back(pendingTimeouts[0])))
      ensures old(task.isRunning || !Requestable() || NoPeerLeft(peers)) ==> asked == old(asked) && unchanged(task)
      ensures !old(Requestable()) ==> !Requestable()
      ensures old(NoPeerLeft(peers)) ==> unchanged(this`startHeight, this`endHeight, this`pids, this`undisturbed)
      ensures old(undisturbed) ==> undisturbed && floor == old(floor) && mark == old(mark)
      ensures old(undisturbed && !abandoned && Requestable()) ==>
                (abandoned <==> forall p | p in old(pids).value :: p !in peers)
      ensures !old(undisturbed) ==> (undisturbed <==> old(Alone() && Requestable() && !NoPeerLeft(peers)))
      ensures !old(undisturbed) && undisturbed ==> floor == old(Back(pendingTimeouts[0])) && mark == |old(asked)|
    {
      var height := TakeTimeout();
      Proceed(height, peers);
    }

    /** Goes on from a missed height, unless the session names its peers and none of them is left. */
    method Proceed(height: int, peers: set<string>)
      requires task.Valid() && maxFetchBlockNum > 0 && Sound() && 0 <= height
      requires undisturbed ==> if Requestable() then MayAsk(height) && Quiet() && height < startHeight else InStep()
      modifies this`startHeight, this`endHeight, this`pids, this`asked, this`floor, this`mark, this`undisturbed,
               this`abandoned, task
      ensures Valid()
      ensures old(Requestable() && !NoPeerLeft(peers)) ==> Moved(old(Back(height)))
      ensures old(Requestable() && !NoPeerLeft(peers) && !task.isRunning) ==> Started(old(Back(height)))
      ensures old(task.isRunning || !Requestable() || NoPeerLeft(peers)) ==> asked == old(asked) && unchanged(task)
      ensures !old(Requestable()) ==> !Requestable()
      ensures old(NoPeerLeft(peers)) ==> unchanged(this`startHeight, this`endHeight, this`pids, this`undisturbed)
      ensures old(undisturbed) ==> undisturbed && floor == old(floor) && mark == old(mark)
      ensures abandoned ==
              (old(NoPeerLeft(peers)) || (old(undisturbed || !Quiet() || !Requestable()) && old(abandoned)))
      ensures !old(undisturbed) ==> (undisturbed <==> old(Quiet() && Requestable() && !NoPeerLeft(peers)))
      ensures !old(undisturbed) && undisturbed ==> floor == old(Back(height)) && mark == |old(asked)|
    {
      if NoPeerLeft(peers) {
        abandoned := true;
        return;
      }
      Resume(height);
    }

    /** Takes a timeout callback off. */
    method TakeTimeout() returns (height: int)
      requires Valid() && pendingTimeouts != []
      modifies this`pendingTimeouts
      ensures height == old(pendingTimeouts)[0] >= 0 && pendingTimeouts == old(pendingTimeouts)[1..] && Sound()
      ensures Quiet() <==> old(Alone())
      ensures undisturbed ==> if Requestable() then MayAsk(height) && Quiet() && height < startHeight else InStep()
    {
      height := pendingTimeouts[0];
      pendingTimeouts := pendingTimeouts[1..];
    }

    /** Requests again from a missed height, if the session still has a remainder. In a disturbed session with nothing
        else going on, that window starts the undisturbed rest. */
    method Resume(height: int)
      requires task.Valid() && maxFetchBlockNum > 0 && Sound() && 0 <= height
      requires undisturbed ==> if Requestable() then MayAsk(height) && Quiet() && height < startHeight else InStep()
      modifies this`startHeight, this`endHeight, this`pids, this`asked, this`floor, this`mark, this`undisturbed,
               this`abandoned, task
      ensures Valid()
      ensures old(Requestable()) ==> Moved(old(Back(height)))
      ensures old(Requestable() && !task.isRunning) ==> Started(old(Back(height)))
      ensures old(task.isRunning || !Requestable()) ==> asked == old(asked) && unchanged(task)
      ensures !old(Requestable()) ==> unchanged(this)
      ensures old(undisturbed) ==> undisturbed && floor == old(floor) && mark == old(mark)
      ensures abandoned == (old(undisturbed || !Quiet() || !Requestable()) && old(abandoned))
      ensures !old(undisturbed) ==> (undisturbed <==> old(Quiet() && Requestable()))
      ensures !old(undisturbed) && undisturbed ==> floor == old(Back(height)) && mark == |old(asked)|
    {
      if startHeight != -1 && endHeight != -1 && pids.Some? {
        if startHeight > height {
          startHeight := height;
        }
        if !undisturbed && Quiet() { Rebase(); }
        FetchNext();
      }
    }

    /** The session names its peers, and none of them is connected. */
    predicate NoPeerLeft(peers: set<string>)
      reads this`pids
    {
      pids.Some? && forall p | p in pids.value :: p !in peers
    }

    /** The window is cancelled from outside. */
    method CancelTask()
      requires Valid()
      modifies this`abandoned, task`isRunning
      ensures Valid() && !task.isRunning && abandoned == (old(abandoned) || old(task.isRunning))
    {
      abandoned := abandoned || task.isRunning;
      var stopped, fired := task.Cancel();
    }

    /** Nothing is skipped: an undisturbed session that has come to rest and was not abandoned has every height. */
    lemma NothingSkipped(h: int)
      requires Valid() && undisturbed && AtRest() && !abandoned && floor <= h <= sessionEnd
      ensures h in done
    {
    }

    /** Every request lies inside the session, is as large as allowed or all that was left, and found all earlier
        heights done. */
    lemma RequestsInOrder(i: nat, h: int)
      requires Valid() && undisturbed && mark <= i < |asked|
      ensures floor <= asked[i].start <= asked[i].end <= sessionEnd
      ensures asked[i].end - asked[i].start + 1 <= maxFetchBlockNum
      ensures asked[i].end == sessionEnd || asked[i].end - asked[i].start + 1 == maxFetchBlockNum
      ensures floor <= h < asked[i].start ==> h in done
    {
      assert Asked(asked[i], floor, sessionEnd, done, maxFetchBlockNum);
    }
  }

  /** What an undisturbed session passed before its floor is never asked for: floor and mark stay, and no later request
      starts below. */
  lemma NeverAsked(d: Downloader, h: int)
    requires d.Valid() && d.undisturbed && h < d.floor
    requires forall i | 0 <= i < d.mark && i < |d.asked| :: !Within(d.asked[i], h)
    ensures forall i | 0 <= i < |d.asked| :: !Within(d.asked[i], h)
  {
    forall i: nat | d.mark <= i < |d.asked| ensures !Within(d.asked[i], h) {
      d.RequestsInOrder(i, h);
    }
  }

  // ----- what disturbs a session -----

  /** Every peer the session names. */
  method PeersOf(d: Downloader) returns (peers: set<string>)
    ensures d.pids.Some? && d.pids.value != [] ==> !d.NoPeerLeft(peers)
  {
    peers := if d.pids.Some? then set p | p in d.pids.value else {};
    assert d.pids.Some? && d.pids.value != [] ==> d.pids.value[0] in peers;
  }

  /** Reports every height of the running window. */
  method ReportAll(d: Downloader)
    requires d.Valid() && d.task.isRunning && !d.undisturbed
    modifies d`done, d`pendingCbs, d.task`start, d.task`isRunning, d.task`doneList, d.task`reported
    ensures d.Valid() && !d.task.isRunning && d.pendingCbs == old(d.pendingCbs) + if d.task.cb then 1 else 0
    ensures forall h | h in d.done :: h in old(d.done) || d.task.first <= h <= d.task.end
  {
    var h := d.task.start;
    while d.task.isRunning
      invariant d.Valid() && d.task.first <= h <= d.task.end + 1
      invariant d.task.isRunning ==> AllIn(d.task.reported, d.task.first, h) && d.pendingCbs == old(d.pendingCbs)
      invariant !d.task.isRunning ==> d.pendingCbs == old(d.pendingCbs) + if d.task.cb then 1 else 0
      invariant forall k | k in d.done :: k in old(d.done) || d.task.first <= k <= d.task.end
      decreases d.task.isRunning, d.task.end - h
    {
      d.ReportDone(h);
      h := if h <= d.task.end then h + 1 else h;
    }
  }

  /** A running window is all that is going on in a disturbed session. */
  ghost predicate OnlyWindow(d: Downloader)
    reads d, d.task
  {
    && d.Valid() && !d.undisturbed && d.task.isRunning
    && d.pendingCbs == 0 && d.pendingTimeouts == []
    && (d.Requestable() ==> d.pids.value != [])
  }

  /** The session goes on undisturbed from a height, with the window that starts there. */
  twostate predicate GoesOn(d: Downloader, floor: int)
    reads d, d.task
  {
    && d.Valid() && d.undisturbed && d.floor == floor
    && d.sessionStart == old(d.sessionStart) && d.sessionEnd == old(d.sessionEnd)
    && d.asked == old(d.asked) + [Window(floor, d.WindowEnd(floor, d.sessionEnd))]
  }

  /** The session has ended without another request. */
  twostate predicate Ends(d: Downloader)
    reads d, d.task
  {
    && d.Valid() && d.Quiet() && d.asked == old(d.asked)
    && d.sessionStart == old(d.sessionStart) && d.sessionEnd == old(d.sessionEnd)
  }

  /** The running window times out, and the timeout is handled. */
  method LetTimeOut(d: Downloader, connected: bool)
    requires OnlyWindow(d)
    modifies d, d.task
    ensures if old(d.task.cb && d.Requestable()) && connected then GoesOn(d, old(d.Back(d.task.start))) else Ends(d)
  {
    d.TimerFires();
    if d.pendingTimeouts != [] {
      var peers := {};
      if connected {
        peers := PeersOf(d);
      }
      d.DownLoadTimeOutProc(peers);
    }
  }

  /** The running window completes, and its callback runs. */
  method LetComplete(d: Downloader)
    requires OnlyWindow(d)
    modifies d, d.task
    ensures if old(d.task.cb && d.Requestable()) then GoesOn(d, old(d.startHeight)) else Ends(d)
    ensures old(!d.Requestable()) ==> !d.Requestable()
    ensures forall h | h in d.done :: h in old(d.done) || old(d.task.first) <= h <= old(d.task.end)
  {
    ReportAll(d);
    if d.pendingCbs > 0 {
      d.RunCallback();
    }
  }

  /** A height no request of the session has covered, and none will: either the session is over, or it is undisturbed
      from a greater height on. */
  ghost predicate Lost(d: Downloader, h: int)
    reads d, d.task
  {
    && d.Valid() && h !in d.done && (forall i | 0 <= i < |d.asked| :: !Within(d.asked[i], h))
    && ((d.undisturbed && h < d.floor) || (d.AtRest() && !d.Requestable()))
  }

  /** A height the remainder has passed without a request for it. */
  ghost predicate Passed(d: Downloader, h: int)
    reads d, d.task
  {
    && h !in d.done && (forall i | 0 <= i < |d.asked| :: !Within(d.asked[i], h))
    && !(d.task.first <= h <= d.task.end) && (d.Requestable() ==> h < d.startHeight)
  }

  /** Once the running window has completed, a height the remainder has passed is lost. */
  method Lose(d: Downloader, ghost h: int)
    requires OnlyWindow(d) && d.task.cb && Passed(d, h)
    modifies d, d.task
    ensures Lost(d, h) && d.sessionStart == old(d.sessionStart) && d.sessionEnd == old(d.sessionEnd)
  {
    LetComplete(d);
  }

  // ----- sessions started while a window runs -----

  /** A session started while a window of an earlier one runs, up to its first request. It goes on only when that window
      has a successor, the session has more than one window of its own, and, after a timeout, a peer is left. It then
      starts after its first window, unless the running window times out at a missing height below that. So its first
      height is asked for exactly when it goes on after a timeout at a height no greater. */
  method BusySession(d: Downloader, s: int, e: int, newPids: seq<string>, timesOut: bool, connected: bool)
    requires d.Valid() && d.task.isRunning
    requires d.pendingCbs == 0 && d.pendingTimeouts == []
    requires 0 <= s <= e && newPids != []
    modifies d, d.task
    ensures var first, missing := d.WindowEnd(s, e), old(d.task.start);
            var goesOn := old(d.task.cb) && first < e && (timesOut ==> connected);
            && d.Valid() && d.sessionStart == s && d.sessionEnd == e
            && (goesOn ==> d.undisturbed && d.floor == if timesOut && missing <= first then missing else first + 1)
            && (goesOn ==> d.asked == [Window(d.floor, d.WindowEnd(d.floor, e))])
            && (!goesOn ==> d.asked == [] && d.Quiet())
            && ((d.asked != [] && d.asked[0].start <= s) <==> (goesOn && timesOut && missing <= s))
  {
    d.ProcDownLoadBlocks(s, e, Some(newPids));
    if timesOut {
      LetTimeOut(d, connected);
    } else {
      LetComplete(d);
    }
  }

  /** Started while a window is running that then completes, a session never asks for its first window. */
  method BusyStartSkips() returns (d: Downloader)
    ensures d.sessionStart == 10 && d.sessionEnd == 12 && d.asked == [Window(11, 11)] && Lost(d, 10)
  {
    d := new Downloader(1);
    d.ProcDownLoadBlocks(0, 1, Some(["peer"]));
    d.ProcDownLoadBlocks(10, 12, Some(["peer"]));
    LetComplete(d);
  }

  /** When the running window times out below it instead, the first window is asked for after all. */
  method BusyStartRecovers() returns (d: Downloader)
    ensures d.Valid() && d.undisturbed && d.sessionStart == 2 && d.sessionEnd == 4
    ensures d.floor == 1 && d.asked == [Window(1, 1)]
  {
    d := new Downloader(1);
    d.ProcDownLoadBlocks(1, 2, Some(["peer"]));
    BusySession(d, 2, 4, ["peer"], true, true);
  }

  // ----- sessions started while the task is idle and a callback is pending -----

  /** A session of more than one window, started with the task idle and one callback pending, that then runs while the
      first window is running. A completion callback always overtakes the session, and a timeout callback exactly when a
      peer is left and its height is above the session's start. Overtaken, the session never asks for the height after
      its first window; otherwise it goes on undisturbed from no greater height. */
  method LeftoverSession(d: Downloader, s: int, e: int, newPids: seq<string>, connected: bool)
    requires d.Valid() && d.Alone() && 0 <= s && d.WindowEnd(s, e) < e && newPids != []
    modifies d, d.task
    ensures var next := d.WindowEnd(s, e) + 1;
            var overtaken := old(d.pendingCbs) > 0 || (connected && old(d.pendingTimeouts)[0] > s);
            && d.Valid() && d.sessionStart == s && d.sessionEnd == e
            && (overtaken ==> Lost(d, next))
            && (!overtaken ==> d.undisturbed && d.floor <= next)
  {
    d.ProcDownLoadBlocks(s, e, Some(newPids));
    RunLeftover(d, connected);
    LetComplete(d);
  }

  /** The one callback that is pending runs while a window is running. */
  method RunLeftover(d: Downloader, connected: bool)
    requires d.Valid() && !d.undisturbed && d.task.isRunning && d.task.cb
    requires d.pendingCbs + |d.pendingTimeouts| == 1 && d.Requestable() && d.pids.value != []
    modifies d, d.task
    ensures unchanged(d.task)
    ensures OnlyWindow(d) && d.asked == old(d.asked) && d.done == old(d.done)
    ensures d.sessionStart == old(d.sessionStart) && d.sessionEnd == old(d.sessionEnd)
    ensures if old(d.pendingCbs) > 0 then d.Moved(old(d.startHeight))
            else if connected then d.Moved(old(d.Back(d.pendingTimeouts[0])))
            else d.startHeight == old(d.startHeight) && d.Requestable()
  {
    if d.pendingCbs > 0 {
      d.RunCallback();
    } else {
      var peers := {};
      if connected {
        peers := PeersOf(d);
      }
      d.DownLoadTimeOutProc(peers);
    }
  }

  /** The leftover of a session started with the task idle runs late: after the first window has completed, and before
      that window's own callback. From a height below, windows are asked for in the gap until the next one would cover
      the height after the first window. */
  method CatchUp(d: Downloader, s: int, ghost e: int, ghost first: int)
    requires d.Valid() && !d.undisturbed && 0 <= s && first == d.WindowEnd(s, e) < e
    requires d.sessionStart == s && d.sessionEnd == e
    requires !d.task.isRunning && d.pendingCbs == 1 && |d.pendingTimeouts| == 1 && d.pendingTimeouts[0] <= s
    requires d.Requestable() && d.pids.value != [] && d.startHeight == first + 1
    requires first + 1 !in d.done && forall i | 0 <= i < |d.asked| :: !Within(d.asked[i], first + 1)
    modifies d, d.task
    ensures d.Valid() && !d.undisturbed && d.sessionStart == s && d.sessionEnd == e
    ensures d.task.isRunning && d.task.cb && d.pendingCbs == 1 && d.pendingTimeouts == []
    ensures d.Requestable() && d.pids.value != [] && s < d.startHeight <= first + 1 && d.task.end <= first
    ensures first + 1 !in d.done && forall i | 0 <= i < |d.asked| :: !Within(d.asked[i], first + 1)
  {
    var peers := PeersOf(d);
    d.DownLoadTimeOutProc(peers);
    while d.startHeight <= s
      invariant d.Valid() && !d.undisturbed && d.sessionStart == s && d.sessionEnd == e
      invariant d.task.isRunning && d.task.cb && d.pendingCbs == 1 && d.pendingTimeouts == []
      invariant d.Requestable() && d.pids.value != [] && d.startHeight <= first + 1 && d.task.end <= first
      invariant first + 1 !in d.done && forall i | 0 <= i < |d.asked| :: !Within(d.asked[i], first + 1)
      decreases s - d.startHeight
    {
      ReportAll(d);
      d.RunCallback();
    }
  }

  /** While a window is running, timeout callbacks find no peer and give up, until only so many are left. */
  method DropTimeouts(d: Downloader, keep: nat)
    requires d.Valid() && !d.undisturbed && d.task.isRunning && d.Requestable() && d.pids.value != []
    requires keep <= |d.pendingTimeouts|
    modifies d, d.task
    ensures unchanged(d.task)
    ensures d.Valid() && !d.undisturbed && d.pendingCbs == old(d.pendingCbs) && |d.pendingTimeouts| == keep
    ensures unchanged(d`startHeight) && unchanged(d`endHeight) && unchanged(d`pids) && unchanged(d`asked)
    ensures unchanged(d`sessionStart) && unchanged(d`sessionEnd) && unchanged(d`done)
  {
    while |d.pendingTimeouts| > keep
      invariant d.Valid() && !d.undisturbed && d.pendingCbs == old(d.pendingCbs) && keep <= |d.pendingTimeouts|
      invariant unchanged(d`startHeight) && unchanged(d`endHeight) && unchanged(d`pids) && unchanged(d`asked)
      invariant unchanged(d`sessionStart) && unchanged(d`sessionEnd) && unchanged(d`done)
      invariant unchanged(d.task)
      decreases |d.pendingTimeouts|
    {
      d.DownLoadTimeOutProc({});
    }
  }

  /** Completion callbacks that run while a window is running move the remainder past its start, and none brings it
      back. */
  method RunCallbacks(d: Downloader, ghost h: int)
    requires d.Valid() && !d.undisturbed && d.task.isRunning && d.pendingCbs > 0 && d.pendingTimeouts == []
    requires d.Requestable() && d.pids.value != [] && d.startHeight == h
    requires h !in d.done && d.task.end < h && forall i | 0 <= i < |d.asked| :: !Within(d.asked[i], h)
    modifies d, d.task
    ensures unchanged(d.task) && OnlyWindow(d) && Passed(d, h)
    ensures d.sessionStart == old(d.sessionStart) && d.sessionEnd == old(d.sessionEnd)
  {
    d.RunCallback();
    while d.pendingCbs > 0
      invariant d.Valid() && !d.undisturbed && d.pendingTimeouts == [] && unchanged(d.task) && Passed(d, h)
      invariant d.Requestable() ==> d.pids.value != []
      invariant d.sessionStart == old(d.sessionStart) && d.sessionEnd == old(d.sessionEnd)
      decreases d.pendingCbs
    {
      d.RunCallback();
    }
  }

  /** Whatever is left over can cost a session of more than one window the height after its first: a session started
      with the task idle is safe, however the events that follow are timed, exactly when nothing is left over or it has
      no more than one window. */
  method Overtaken(d: Downloader, s: int, e: int, newPids: seq<string>)
    requires d.Valid() && !d.task.isRunning && !d.Quiet() && 0 <= s && d.WindowEnd(s, e) < e && newPids != []
    modifies d, d.task
    ensures d.sessionStart == s && d.sessionEnd == e && Lost(d, d.WindowEnd(s, e) + 1)
  {
    d.ProcDownLoadBlocks(s, e, Some(newPids));
    ghost var first := d.WindowEnd(s, e);
    DropTimeouts(d, if d.pendingCbs > 0 then 0 else 1);
    if d.pendingCbs > 0 {
      RunCallbacks(d, first + 1);
    } else if d.pendingTimeouts[0] > s {
      RunLeftover(d, true);
    } else {
      ReportAll(d);
      CatchUp(d, s, e, first);
      d.RunCallback();
    }
    Lose(d, first + 1);
  }

  /** The task is idle, but the callback of the completed window has not run yet. */
  method CallbackPending(peers: seq<string>) returns (d: Downloader)
    ensures fresh(d) && fresh(d.task) && d.Valid() && d.Alone() && d.pendingCbs == 1 && d.maxFetchBlockNum == 1
  {
    d := new Downloader(1);
    d.ProcDownLoadBlocks(0, 1, Some(peers));
    d.ReportDone(0);
  }

  /** The callback runs while the next session's first window is running, and height 11 is never asked for. */
  method IdleStartSkips(peers: seq<string>) returns (d: Downloader)
    requires peers != []
    ensures d.sessionStart == 10 && d.sessionEnd == 14 && d.asked == [Window(10, 10), Window(12, 12)] && Lost(d, 11)
  {
    d := CallbackPending(peers);
    d.ProcDownLoadBlocks(10, 14, Some(peers));
    d.RunCallback();
    LetComplete(d);
  }
}
