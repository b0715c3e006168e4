/**
  The command-line variant of the absentee job. It runs the same sequence as
  the cron handler and reports through its exit status instead of an HTTP
  reply: 1 when the backend URL or service key is missing (before any
  request) or when a request fails, 0 otherwise.
 */
module MarkAbsenteesScript {
  import opened CivilTime
  import opened Records
  import opened MarkAbsentees

  /** The process's exit status once the run has ended with o. */
  function ExitCode(o: Outcome): int {
    if o.Failed? then 1 else 0
  }

  /** The two variants agree: the script exits 0 exactly when the handler
      would reply 200, and exits 1 exactly when it would reply 500. */
  lemma VariantsAgree(o: Outcome)
    ensures ExitCode(o) == 0 <==> ReplyOf(o).status == 200
    ensures ExitCode(o) == 1 <==> ReplyOf(o).status == 500
  { }

  /** The whole script: `configured` says whether both VITE_SUPABASE_URL and
      SUPABASE_SERVICE_ROLE_KEY are set. */
  method RunScript(store: RecordsStore, configured: bool, nowMs: int, at: Timestamp) returns (exitCode: int)
    requires store.Valid()
    modifies store
    ensures store.Valid()
    ensures store.profiles == old(store.profiles) && store.holidays == old(store.holidays)
    ensures store.events == old(store.events)
    ensures store.failing == old(store.failing) && store.arrayReplies == old(store.arrayReplies)
    ensures !configured ==> exitCode == 1 && store.log == old(store.log) && store.attendance == old(store.attendance)
    ensures configured ==>
      var o := RunOutcome(old(store.holidays), old(store.profiles), old(store.attendance),
                          old(store.failing), old(store.arrayReplies), TodayInIst(nowMs), at);
      && exitCode == ExitCode(o)
      && store.log == old(store.log) + RequestsFor(o)
      && store.attendance == if o.Inserted? then
           old(store.attendance) + Numbered(Drafts(old(store.profiles), old(store.attendance), TodayInIst(nowMs), at), old(store.nextId))
         else old(store.attendance)
  {
    if !configured {
      return 1;
    }
    var o := MarkForToday(store, TodayInIst(nowMs), at);
    exitCode := ExitCode(o);
  }

  /** For identical stores and clocks, the script and an authorized handler
      invocation write the same rows and end the same way. */
  method BothVariants(store1: RecordsStore, store2: RecordsStore, cronSecret: string, nowMs: int, at: Timestamp)
    returns (exitCode: int, reply: HttpReply)
    requires store1 != store2 && store1.Valid() && store2.Valid()
    requires store1.profiles == store2.profiles && store1.attendance == store2.attendance
    requires store1.holidays == store2.holidays && store1.nextId == store2.nextId
    requires store1.failing == store2.failing && store1.arrayReplies == store2.arrayReplies
    modifies store1, store2
    ensures store1.attendance == store2.attendance
    ensures exitCode == 0 <==> reply.status == 200
  {
    exitCode := RunScript(store1, true, nowMs, at);
    reply := Handler(store2, cronSecret, "Bearer " + cronSecret, "", nowMs, at);
    ghost var o := RunOutcome(old(store1.holidays), old(store1.profiles), old(store1.attendance),
                              old(store1.failing), old(store1.arrayReplies), TodayInIst(nowMs), at);
    VariantsAgree(o);
  }
}
