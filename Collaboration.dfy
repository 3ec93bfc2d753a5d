/**
 * The collaboration session store: a `Map` of sessions, each holding its
 * participants and cursors (both `Map`s) and its annotation list. Session,
 * annotation and reply ids, which the service draws from the clock and
 * `Math.random`, and the clock reading itself are parameters; socket
 * broadcasts change no state and are left out.
 */
module Collaboration {
  import opened Wrappers
  import opened JsMaps
  import Seqs

  /** 30 minutes, in milliseconds. */
  const InactiveThreshold: int := 30 * 60 * 1000

  datatype Role = Viewer | Editor | Admin

  datatype Participant = Participant(id: string, name: string, avatar: Option<string>, role: Role,
                                     joinedAt: int, isActive: bool, socketId: string)

  /** What joinSession is given: a participant without its join time and activity flag. */
  datatype Arrival = Arrival(id: string, name: string, avatar: Option<string>, role: Role, socketId: string)

  datatype Cursor = Cursor(participantId: string, pageNumber: int, x: real, y: real, lastUpdate: int)

  datatype AnnotationKind = Note | Highlight | Comment | Approval | Revision

  datatype Status = Active | Resolved | Deleted

  datatype Reply = Reply(id: string, authorId: string, authorName: string, content: string, createdAt: int)

  /** What addAnnotationReply is given: a reply without its id and time. */
  datatype ReplyDraft = ReplyDraft(authorId: string, authorName: string, content: string)

  datatype Annotation = Annotation(id: string, authorId: string, authorName: string, pageNumber: int,
                                   x: real, y: real, width: real, height: real, content: string,
                                   kind: AnnotationKind, status: Status, thread: seq<Reply>,
                                   createdAt: int, updatedAt: int)

  /** What addAnnotation is given: an annotation without id, times, thread and status. */
  datatype AnnotationDraft = AnnotationDraft(authorId: string, authorName: string, pageNumber: int,
                                             x: real, y: real, width: real, height: real, content: string,
                                             kind: AnnotationKind)

  /** `Partial<Annotation>`: the fields an update overwrites. */
  datatype AnnotationPatch = AnnotationPatch(id: Option<string>, authorId: Option<string>, authorName: Option<string>,
                                             pageNumber: Option<int>, x: Option<real>, y: Option<real>,
                                             width: Option<real>, height: Option<real>, content: Option<string>,
                                             kind: Option<AnnotationKind>, status: Option<Status>,
                                             thread: Option<seq<Reply>>, createdAt: Option<int>, updatedAt: Option<int>)

  /** `documentState` is an arbitrary JSON value, kept here as its text. */
  datatype Session = Session(id: string, documentId: string, documentName: string,
                             participants: JsMap<Participant>, annotations: seq<Annotation>,
                             cursors: JsMap<Cursor>, documentState: string, createdAt: int, lastActivity: int)

  type Store = JsMap<Session>

  predicate SessionValid(s: Session) {
    WellFormed(s.participants) && WellFormed(s.cursors)
  }

  /** Every session is filed under its own id, and every map is well formed. */
  predicate StoreValid(store: Store) {
    && WellFormed(store)
    && forall k :: k in store.vals ==> SessionValid(store.vals[k]) && store.vals[k].id == k
  }

  // ---------------------------------------------------------------------------
  // Sessions and participants
  // ---------------------------------------------------------------------------

  function Host(hostId: string, hostName: string, now: int): Participant {
    Participant(hostId, hostName, None, Admin, now, true, "")
  }

  /** `createSession`: the host is the only participant, as an admin; no annotations, no cursors. */
  function NewSession(sessionId: string, documentId: string, documentName: string, hostId: string, hostName: string, now: int)
    : (s: Session)
    ensures SessionValid(s) && s.id == sessionId && s.documentId == documentId && s.documentName == documentName
    ensures Size(s.participants) == 1 && Get(s.participants, hostId) == Some(Host(hostId, hostName, now))
    ensures Host(hostId, hostName, now).role == Admin && Host(hostId, hostName, now).isActive
    ensures s.annotations == [] && Size(s.cursors) == 0
    ensures s.createdAt == now && s.lastActivity == now
  {
    Session(sessionId, documentId, documentName, Set(Empty(), hostId, Host(hostId, hostName, now)), [], Empty(), "{}", now, now)
  }

  /** `joinSession` on a present session: the participant is inserted, or replaces the one with its id. */
  function Joined(s: Session, a: Arrival, now: int): (r: Session)
    ensures SessionValid(s) ==> SessionValid(r)
    ensures Get(r.participants, a.id) == Some(Participant(a.id, a.name, a.avatar, a.role, now, true, a.socketId))
    ensures forall pid :: pid != a.id ==> Get(r.participants, pid) == Get(s.participants, pid)
    ensures SessionValid(s) ==> Size(r.participants) == Size(s.participants) + (if Get(s.participants, a.id).Some? then 0 else 1)
    ensures r.annotations == s.annotations && r.cursors == s.cursors && r.id == s.id && r.lastActivity == now
  {
    s.(participants := Set(s.participants, a.id, Participant(a.id, a.name, a.avatar, a.role, now, true, a.socketId)),
       lastActivity := now)
  }

  /** The session after a participant leaves: the participant and their cursor are gone. */
  function Departed(s: Session, pid: string, now: int): (r: Session)
    ensures SessionValid(s) ==> SessionValid(r)
    ensures Get(r.participants, pid).None? && Get(r.cursors, pid).None?
    ensures forall q :: q != pid ==> Get(r.participants, q) == Get(s.participants, q) && Get(r.cursors, q) == Get(s.cursors, q)
    ensures SessionValid(s) ==> Size(r.participants) == Size(s.participants) - (if Get(s.participants, pid).Some? then 1 else 0)
    ensures r.annotations == s.annotations && r.id == s.id && r.lastActivity == now
  {
    s.(participants := Delete(s.participants, pid), cursors := Delete(s.cursors, pid), lastActivity := now)
  }

  /** `leaveSession`: nothing happens for an unknown session or participant; a session left empty is removed. */
  function Leave(store: Store, sid: string, pid: string, now: int): (r: Store)
    ensures forall k :: k != sid ==> Get(r, k) == Get(store, k)
    ensures sid !in store.vals || pid !in store.vals[sid].participants.vals ==> r == store
    ensures Get(r, sid).Some? ==> Get(r.vals[sid].participants, pid).None?
  {
    if sid !in store.vals || pid !in store.vals[sid].participants.vals then store
    else
      var s := Departed(store.vals[sid], pid, now);
      if Size(s.participants) == 0 then Delete(store, sid) else Set(store, sid, s)
  }

  /**
   * After leaveSession the participant and their cursor are gone, every other
   * session is untouched, and the session itself survives exactly when someone
   * else is still in it.
   */
  lemma LeaveEffect(store: Store, sid: string, pid: string, now: int)
    requires StoreValid(store)
    ensures var r := Leave(store, sid, pid, now);
            && StoreValid(r)
            && (forall k :: k != sid ==> Get(r, k) == Get(store, k))
            && (Get(store, sid).None? || Get(store.vals[sid].participants, pid).None? ==> r == store)
            && (Get(store, sid).Some? && Get(store.vals[sid].participants, pid).Some? ==>
                  && (Get(r, sid).Some? <==> Size(store.vals[sid].participants) > 1)
                  && (Get(r, sid).Some? ==>
                        Get(r.vals[sid].participants, pid).None? && Get(r.vals[sid].cursors, pid).None?
                        && r.vals[sid].annotations == store.vals[sid].annotations))
  {
  }

  /** `updateCursor`: the participant's cursor is set, whether or not they have joined. */
  function WithCursor(s: Session, pid: string, pageNumber: int, x: real, y: real, now: int): (r: Session)
    ensures SessionValid(s) ==> SessionValid(r)
    ensures Get(r.cursors, pid) == Some(Cursor(pid, pageNumber, x, y, now))
    ensures forall q :: q != pid ==> Get(r.cursors, q) == Get(s.cursors, q)
    ensures r.participants == s.participants && r.annotations == s.annotations && r.id == s.id && r.lastActivity == now
  {
    s.(cursors := Set(s.cursors, pid, Cursor(pid, pageNumber, x, y, now)), lastActivity := now)
  }

  /** The participant with its socket id replaced and marked active. */
  function Reconnected(s: Session, pid: string, socketId: string): (r: Session)
    requires pid in s.participants.vals
    ensures SessionValid(s) ==> SessionValid(r)
    ensures Get(r.participants, pid) == Some(s.participants.vals[pid].(socketId := socketId, isActive := true))
    ensures forall q :: q != pid ==> Get(r.participants, q) == Get(s.participants, q)
    ensures SessionValid(s) ==> Size(r.participants) == Size(s.participants)
    ensures r.cursors == s.cursors && r.annotations == s.annotations && r.id == s.id && r.lastActivity == s.lastActivity
  {
    var p := s.participants.vals[pid];
    s.(participants := Set(s.participants, pid, p.(socketId := socketId, isActive := true)))
  }

  predicate IsPresent(p: Participant) {
    p.isActive
  }

  /** `getActiveParticipants`: the active participants, in joining order. */
  function ActiveParticipants(s: Session): (r: seq<Participant>)
    requires SessionValid(s)
  {
    Seqs.Filter(Values(s.participants), IsPresent)
  }

  lemma ActiveParticipantsMembers(s: Session, p: Participant)
    requires SessionValid(s)
    ensures p in ActiveParticipants(s) <==> p.isActive && exists k :: k in s.participants.vals && s.participants.vals[k] == p
  {
    Seqs.FilterMembers(Values(s.participants), IsPresent);
    ValuesMembers(s.participants, p);
  }

  // ---------------------------------------------------------------------------
  // Annotations
  // ---------------------------------------------------------------------------

  /** `findIndex(a => a.id === annotationId)` */
  function FindAnnotation(anns: seq<Annotation>, annotationId: string): (r: int)
    ensures -1 <= r < |anns|
    ensures r >= 0 ==> anns[r].id == annotationId
    ensures forall i :: 0 <= i < |anns| && (r == -1 || i < r) ==> anns[i].id != annotationId
  {
    if anns == [] then -1
    else if anns[0].id == annotationId then 0
    else
      var k := FindAnnotation(anns[1..], annotationId);
      if k < 0 then -1 else k + 1
  }

  /** The annotation addAnnotation creates: active, with an empty thread. */
  function NewAnnotation(d: AnnotationDraft, annotationId: string, now: int): (a: Annotation)
    ensures a.status == Active && a.thread == [] && a.id == annotationId && a.createdAt == now && a.updatedAt == now
    ensures a.authorId == d.authorId && a.content == d.content && a.kind == d.kind && a.pageNumber == d.pageNumber
  {
    Annotation(annotationId, d.authorId, d.authorName, d.pageNumber, d.x, d.y, d.width, d.height, d.content, d.kind,
               Active, [], now, now)
  }

  function Annotated(s: Session, a: Annotation, now: int): (r: Session)
    ensures |r.annotations| == |s.annotations| + 1 && r.annotations[|s.annotations|] == a
    ensures r.annotations[..|s.annotations|] == s.annotations
    ensures r.participants == s.participants && r.cursors == s.cursors && r.id == s.id && r.lastActivity == now
  {
    s.(annotations := s.annotations + [a], lastActivity := now)
  }

  predicate IsLive(a: Annotation) {
    a.status == Active
  }

  /** `getSessionAnnotations`: the active annotations, in order. */
  function LiveAnnotations(s: Session): (r: seq<Annotation>)
    ensures forall a :: a in r <==> a in s.annotations && a.status == Active
  {
    Seqs.FilterMembers(s.annotations, IsLive);
    Seqs.Filter(s.annotations, IsLive)
  }

  /** A new annotation is appended, and shows up last among the session's annotations. */
  lemma AnnotatedEffect(s: Session, d: AnnotationDraft, annotationId: string, now: int)
    ensures var a := NewAnnotation(d, annotationId, now);
            var r := Annotated(s, a, now);
            && |r.annotations| == |s.annotations| + 1
            && r.annotations[..|s.annotations|] == s.annotations
            && LiveAnnotations(r) == LiveAnnotations(s) + [a]
            && r.participants == s.participants && r.cursors == s.cursors
  {
    var a := NewAnnotation(d, annotationId, now);
    assert (s.annotations + [a])[..|s.annotations|] == s.annotations;
  }

  /** `{ ...annotation, ...updates, updatedAt: new Date() }` */
  function Patched(a: Annotation, u: AnnotationPatch, now: int): (r: Annotation)
    ensures r.updatedAt == now
  {
    Annotation(u.id.GetOr(a.id), u.authorId.GetOr(a.authorId), u.authorName.GetOr(a.authorName),
               u.pageNumber.GetOr(a.pageNumber), u.x.GetOr(a.x), u.y.GetOr(a.y), u.width.GetOr(a.width),
               u.height.GetOr(a.height), u.content.GetOr(a.content), u.kind.GetOr(a.kind), u.status.GetOr(a.status),
               u.thread.GetOr(a.thread), u.createdAt.GetOr(a.createdAt), now)
  }

  const NoChanges := AnnotationPatch(None, None, None, None, None, None, None, None, None, None, None, None, None, None)

  /** An update with no fields only stamps the time, and a field the update names takes its value. */
  lemma PatchedFields(a: Annotation, u: AnnotationPatch, now: int)
    ensures Patched(a, NoChanges, now) == a.(updatedAt := now)
    ensures u.status.Some? ==> Patched(a, u, now).status == u.status.value
    ensures u.status.None? ==> Patched(a, u, now).status == a.status
    ensures u.content.Some? ==> Patched(a, u, now).content == u.content.value
    ensures u.content.None? ==> Patched(a, u, now).content == a.content
    ensures u.id.None? ==> Patched(a, u, now).id == a.id
  {
  }

  /** The annotation at index i, replaced in place. */
  function Rewritten(s: Session, i: nat, a: Annotation, now: int): (r: Session)
    requires i < |s.annotations|
    ensures |r.annotations| == |s.annotations| && r.annotations[i] == a
    ensures forall j :: 0 <= j < |s.annotations| && j != i ==> r.annotations[j] == s.annotations[j]
    ensures r.participants == s.participants && r.cursors == s.cursors && r.id == s.id && r.lastActivity == now
  {
    s.(annotations := s.annotations[i := a], lastActivity := now)
  }

  /** An annotation with one more reply at the end of its thread. */
  function WithReply(a: Annotation, r: Reply, now: int): (b: Annotation)
    ensures b.thread == a.thread + [r] && b.updatedAt == now
    ensures b.(thread := a.thread, updatedAt := a.updatedAt) == a
  {
    a.(thread := a.thread + [r], updatedAt := now)
  }

  /** The annotation marked deleted; it stays in the list. */
  function SoftDeleted(a: Annotation, now: int): (b: Annotation)
    ensures b.status == Deleted && b.updatedAt == now
    ensures b.(status := a.status, updatedAt := a.updatedAt) == a
  {
    a.(status := Deleted, updatedAt := now)
  }

  /** The author may delete an annotation, and so may any admin of the session. */
  predicate MayDelete(s: Session, a: Annotation, deleterId: string)
    ensures a.authorId == deleterId ==> MayDelete(s, a, deleterId)
    ensures a.authorId != deleterId && Get(s.participants, deleterId).None? ==> !MayDelete(s, a, deleterId)
    ensures a.authorId != deleterId && Get(s.participants, deleterId).Some? ==>
              (MayDelete(s, a, deleterId) <==> Get(s.participants, deleterId).value.role == Admin)
  {
    a.authorId == deleterId || (deleterId in s.participants.vals && s.participants.vals[deleterId].role == Admin)
  }

  /**
   * A soft delete keeps the list's length and every other annotation, and the
   * active list loses one entry exactly when the annotation was active.
   */
  lemma SoftDeleteEffect(s: Session, i: nat, now: int)
    requires i < |s.annotations|
    ensures var r := Rewritten(s, i, SoftDeleted(s.annotations[i], now), now);
            && |r.annotations| == |s.annotations|
            && (forall j :: 0 <= j < |s.annotations| && j != i ==> r.annotations[j] == s.annotations[j])
            && !IsLive(r.annotations[i])
            && |LiveAnnotations(r)| == |LiveAnnotations(s)| - (if IsLive(s.annotations[i]) then 1 else 0)
  {
    Seqs.FilterUpdateCount(s.annotations, i, SoftDeleted(s.annotations[i], now), IsLive);
  }

  // ---------------------------------------------------------------------------
  // Idle cleanup
  // ---------------------------------------------------------------------------

  /** Idle for more than 30 minutes at `now`. */
  predicate Idle(s: Session, now: int)
    ensures now <= s.lastActivity ==> !Idle(s, now)
  {
    now - s.lastActivity > InactiveThreshold
  }

  /** The store holds an idle session under key k. */
  predicate IdleIn(store: Store, k: string, now: int) {
    k in store.vals && Idle(store.vals[k], now)
  }

  /** The store after deleting, key by key through `ks`, each session of `store` that is idle. */
  function Sweep(store: Store, ks: seq<string>, now: int): (r: Store)
    ensures WellFormed(store) ==> WellFormed(r)
    ensures forall k :: Get(r, k) == (if k in ks && IdleIn(store, k, now) then None else Get(store, k))
  {
    if ks == [] then store
    else
      var n := |ks| - 1;
      var prev := Sweep(store, ks[..n], now);
      assert forall k :: k in ks <==> k in ks[..n] || k == ks[n] by {
        assert ks == ks[..n] + [ks[n]];
      }
      if IdleIn(store, ks[n], now) then Delete(prev, ks[n]) else prev
  }

  /** The number of idle sessions among the keys `ks`. */
  function IdleCount(store: Store, ks: seq<string>, now: int): nat {
    if ks == [] then 0 else IdleCount(store, ks[..|ks| - 1], now) + (if IdleIn(store, ks[|ks| - 1], now) then 1 else 0)
  }

  /**
   * cleanupInactiveSessions removes exactly the idle sessions, keeps every
   * other session as it was, and the count it returns is how many went.
   */
  lemma SweepEffect(store: Store, now: int)
    requires StoreValid(store)
    ensures var r := Sweep(store, store.keys, now);
            && StoreValid(r)
            && (forall k :: Get(r, k).Some? <==> Get(store, k).Some? && !Idle(store.vals[k], now))
            && (forall k :: Get(r, k).Some? ==> Get(r, k) == Get(store, k))
            && Size(r) == Size(store) - IdleCount(store, store.keys, now)
  {
    var r := Sweep(store, store.keys, now);
    forall k ensures (Get(r, k).Some? <==> Get(store, k).Some? && !Idle(store.vals[k], now))
                     && (Get(r, k).Some? ==> Get(r, k) == Get(store, k) && k in store.vals) {
      assert k in store.keys <==> k in store.vals;
    }
    assert StoreValid(r) by {
      forall k | k in r.vals ensures SessionValid(r.vals[k]) && r.vals[k].id == k {
        assert Get(r, k).Some?;
      }
    }
    SweepSize(store, store.keys, now);
  }

  /** One more key: the sweep deletes it when its session is idle, and the count grows by one. */
  lemma SweepNext(store: Store, ks: seq<string>, i: nat, now: int)
    requires i < |ks|
    ensures Sweep(store, ks[..i + 1], now) ==
              (if IdleIn(store, ks[i], now) then Delete(Sweep(store, ks[..i], now), ks[i]) else Sweep(store, ks[..i], now))
    ensures IdleCount(store, ks[..i + 1], now) == IdleCount(store, ks[..i], now) + (if IdleIn(store, ks[i], now) then 1 else 0)
  {
    assert ks[..i + 1][..i] == ks[..i];
  }

  lemma {:induction false} SweepSize(store: Store, ks: seq<string>, now: int)
    requires WellFormed(store) && Seqs.Distinct(ks)
    requires forall k :: k in ks ==> k in store.vals
    ensures Size(Sweep(store, ks, now)) == Size(store) - IdleCount(store, ks, now)
  {
    if ks != [] {
      var n := |ks| - 1;
      assert Seqs.Distinct(ks[..n]) by {
        forall i, j | 0 <= i < j < n ensures ks[..n][i] != ks[..n][j] {
          assert ks[i] != ks[j];
        }
      }
      assert ks[n] !in ks[..n] by {
        forall i | 0 <= i < n ensures ks[..n][i] != ks[n] {
          assert ks[i] != ks[n];
        }
      }
      SweepSize(store, ks[..n], now);
      SweepSizeStep(store, ks, now);
    }
  }

  /** The last key of `ks`, when not among the others, shortens the sweep by one exactly when its session is idle. */
  lemma SweepSizeStep(store: Store, ks: seq<string>, now: int)
    requires WellFormed(store) && ks != [] && ks[|ks| - 1] in store.vals && ks[|ks| - 1] !in ks[..|ks| - 1]
    ensures var n := |ks| - 1;
            var d := if IdleIn(store, ks[n], now) then 1 else 0;
            && Size(Sweep(store, ks, now)) == Size(Sweep(store, ks[..n], now)) - d
            && IdleCount(store, ks, now) == IdleCount(store, ks[..n], now) + d
  {
    var n := |ks| - 1;
    var prev := Sweep(store, ks[..n], now);
    assert Get(prev, ks[n]) == Get(store, ks[n]);
    SizeStep(prev, ks[n], IdleIn(store, ks[n], now));
  }

  /** Deleting a present key shortens a well-formed map by one. */
  lemma SizeStep(prev: Store, k: string, idle: bool)
    requires WellFormed(prev) && Get(prev, k).Some?
    ensures Size(if idle then Delete(prev, k) else prev) == Size(prev) - (if idle then 1 else 0)
  {
  }

  // ---------------------------------------------------------------------------
  // Statistics
  // ---------------------------------------------------------------------------

  datatype SessionStats = SessionStats(totalSessions: nat, activeSessions: nat, totalParticipants: nat, totalAnnotations: nat)

  /** The statistics of the sessions `ss`: how many, how many with a participant, and the two totals. */
  function Tally(ss: seq<Session>): (r: SessionStats)
    ensures r.totalSessions == |ss|
  {
    if ss == [] then SessionStats(0, 0, 0, 0)
    else
      var prev := Tally(ss[..|ss| - 1]);
      var s := ss[|ss| - 1];
      SessionStats(prev.totalSessions + 1,
                   prev.activeSessions + (if Size(s.participants) > 0 then 1 else 0),
                   prev.totalParticipants + Size(s.participants),
                   prev.totalAnnotations + |s.annotations|)
  }

  /** At most every session is active, and each active session has at least one participant. */
  lemma {:induction false} TallyBounds(ss: seq<Session>)
    ensures Tally(ss).activeSessions <= Tally(ss).totalSessions
    ensures Tally(ss).activeSessions <= Tally(ss).totalParticipants
    ensures Tally(ss).activeSessions == Tally(ss).totalSessions <==> forall s :: s in ss ==> Size(s.participants) > 0
  {
    if ss != [] {
      var n := |ss| - 1;
      TallyBounds(ss[..n]);
      assert forall s :: s in ss <==> s in ss[..n] || s == ss[n] by {
        assert ss == ss[..n] + [ss[n]];
      }
    }
  }

  // ---------------------------------------------------------------------------
  // Disconnects
  // ---------------------------------------------------------------------------

  /** The first participant key in `ks` whose socket id is `socketId`. */
  function SocketOwner(ps: JsMap<Participant>, ks: seq<string>, socketId: string): (r: Option<string>)
    ensures r.Some? ==> r.value in ks && r.value in ps.vals && ps.vals[r.value].socketId == socketId
    ensures r.None? ==> forall k :: k in ks && k in ps.vals ==> ps.vals[k].socketId != socketId
  {
    if ks == [] then None
    else if ks[0] in ps.vals && ps.vals[ks[0]].socketId == socketId then Some(ks[0])
    else
      var r := SocketOwner(ps, ks[1..], socketId);
      assert forall k :: k in ks <==> k == ks[0] || k in ks[1..] by {
        assert ks == [ks[0]] + ks[1..];
      }
      r
  }

  /** The first session in `ks`, and its first participant, connected through `socketId`. */
  function SocketSession(store: Store, ks: seq<string>, socketId: string): (r: Option<(string, string)>)
    ensures r.Some? ==> r.value.0 in ks && r.value.0 in store.vals
                        && SocketOwner(store.vals[r.value.0].participants, store.vals[r.value.0].participants.keys, socketId)
                           == Some(r.value.1)
    ensures r.None? ==> forall k :: k in ks && k in store.vals ==>
                          SocketOwner(store.vals[k].participants, store.vals[k].participants.keys, socketId).None?
  {
    if ks == [] then None
    else
      var owner := if ks[0] in store.vals then SocketOwner(store.vals[ks[0]].participants, store.vals[ks[0]].participants.keys, socketId)
                   else None;
      if owner.Some? then Some((ks[0], owner.value))
      else
        var r := SocketSession(store, ks[1..], socketId);
        assert forall k :: k in ks <==> k == ks[0] || k in ks[1..] by {
          assert ks == [ks[0]] + ks[1..];
        }
        r
  }

  /** The participant marked inactive, as handleParticipantDisconnect does before leaving. */
  function MarkedInactive(store: Store, sid: string, pid: string): (r: Store)
    requires sid in store.vals && pid in store.vals[sid].participants.vals
    ensures forall k :: k != sid ==> Get(r, k) == Get(store, k)
    ensures sid in r.vals && Get(r.vals[sid].participants, pid) == Some(store.vals[sid].participants.vals[pid].(isActive := false))
    ensures forall q :: q != pid ==> Get(r.vals[sid].participants, q) == Get(store.vals[sid].participants, q)
    ensures r.vals[sid].cursors == store.vals[sid].cursors && r.vals[sid].annotations == store.vals[sid].annotations
  {
    var s := store.vals[sid];
    Set(store, sid, s.(participants := Set(s.participants, pid, s.participants.vals[pid].(isActive := false))))
  }

  lemma MarkedInactiveValid(store: Store, sid: string, pid: string)
    requires StoreValid(store) && sid in store.vals && pid in store.vals[sid].participants.vals
    ensures StoreValid(MarkedInactive(store, sid, pid))
  {
  }

  /** Marking a participant inactive just before they leave changes nothing that remains. */
  lemma MarkThenLeave(store: Store, sid: string, pid: string, now: int)
    requires StoreValid(store) && sid in store.vals && pid in store.vals[sid].participants.vals
    ensures Leave(MarkedInactive(store, sid, pid), sid, pid, now) == Leave(store, sid, pid, now)
  {
    var s := store.vals[sid];
    var m := MarkedInactive(store, sid, pid);
    var ps := Set(s.participants, pid, s.participants.vals[pid].(isActive := false));
    assert ps.keys == s.participants.keys && ps.vals - {pid} == s.participants.vals - {pid};
    assert Delete(ps, pid) == Delete(s.participants, pid);
    assert m.vals[sid] == s.(participants := ps);
    var d := Departed(s, pid, now);
    assert Departed(m.vals[sid], pid, now) == d;
    assert m.keys == store.keys && m.vals - {sid} == store.vals - {sid};
    assert m.vals[sid := d] == store.vals[sid := d];
  }

  // ---------------------------------------------------------------------------
  // The service
  // ---------------------------------------------------------------------------

  datatype JoinError = SessionNotFound

  class CollaborationService {
    var sessions: Store

    ghost predicate Valid()
      reads this
    {
      StoreValid(sessions)
    }

    constructor()
      ensures Valid() && sessions == Empty()
    {
      sessions := Empty();
    }

    /** `createSession`, with `sessionId` the freshly generated id. */
    method CreateSession(documentId: string, documentName: string, hostId: string, hostName: string, sessionId: string, now: int)
      returns (session: Session)
      requires Valid()
      modifies this
      ensures Valid()
      ensures session == NewSession(sessionId, documentId, documentName, hostId, hostName, now)
      ensures sessions == Set(old(sessions), sessionId, session)
    {
      session := NewSession(sessionId, documentId, documentName, hostId, hostName, now);
      sessions := Set(sessions, sessionId, session);
    }

    /** `joinSession` */
    method JoinSession(sessionId: string, a: Arrival, now: int) returns (r: Result<Session, JoinError>)
      requires Valid()
      modifies this
      ensures Valid()
      ensures r.Err? <==> Get(old(sessions), sessionId).None?
      ensures r.Err? ==> sessions == old(sessions)
      ensures r.Ok? ==> r.value == Joined(old(sessions).vals[sessionId], a, now)
                        && sessions == Set(old(sessions), sessionId, r.value)
    {
      if sessionId !in sessions.vals {
        return Err(SessionNotFound);
      }
      var session := Joined(sessions.vals[sessionId], a, now);
      sessions := Set(sessions, sessionId, session);
      return Ok(session);
    }

    /** `leaveSession` */
    method LeaveSession(sessionId: string, participantId: string, now: int)
      requires Valid()
      modifies this
      ensures Valid()
      ensures sessions == Leave(old(sessions), sessionId, participantId, now)
    {
      LeaveEffect(sessions, sessionId, participantId, now);
      if sessionId !in sessions.vals {
        return;
      }
      var session := sessions.vals[sessionId];
      if participantId in session.participants.vals {
        session := Departed(session, participantId, now);
        if Size(session.participants) == 0 {
          sessions := Delete(sessions, sessionId);
        } else {
          sessions := Set(sessions, sessionId, session);
        }
      }
    }

    /** `updateCursor` */
    method UpdateCursor(sessionId: string, participantId: string, pageNumber: int, x: real, y: real, now: int)
      requires Valid()
      modifies this
      ensures Valid()
      ensures sessionId !in old(sessions).vals ==> sessions == old(sessions)
      ensures sessionId in old(sessions).vals ==>
                sessions == Set(old(sessions), sessionId, WithCursor(old(sessions).vals[sessionId], participantId, pageNumber, x, y, now))
    {
      if sessionId !in sessions.vals {
        return;
      }
      sessions := Set(sessions, sessionId, WithCursor(sessions.vals[sessionId], participantId, pageNumber, x, y, now));
    }

    /** `addAnnotation`, with `annotationId` the freshly generated id; null for an unknown session. */
    method AddAnnotation(sessionId: string, d: AnnotationDraft, annotationId: string, now: int) returns (r: Option<Annotation>)
      requires Valid()
      modifies this
      ensures Valid()
      ensures r.None? <==> sessionId !in old(sessions).vals
      ensures r.None? ==> sessions == old(sessions)
      ensures r.Some? ==> r.value == NewAnnotation(d, annotationId, now)
                          && sessions == Set(old(sessions), sessionId, Annotated(old(sessions).vals[sessionId], r.value, now))
    {
      if sessionId !in sessions.vals {
        return None;
      }
      var a := NewAnnotation(d, annotationId, now);
      sessions := Set(sessions, sessionId, Annotated(sessions.vals[sessionId], a, now));
      return Some(a);
    }

    /** `updateAnnotation`: the first annotation with the id takes the update's fields. */
    method UpdateAnnotation(sessionId: string, annotationId: string, u: AnnotationPatch, now: int) returns (r: Option<Annotation>)
      requires Valid()
      modifies this
      ensures Valid()
      ensures r.None? <==> sessionId !in old(sessions).vals || FindAnnotation(old(sessions).vals[sessionId].annotations, annotationId) < 0
      ensures r.None? ==> sessions == old(sessions)
      ensures r.Some? ==>
                var s := old(sessions).vals[sessionId];
                var i := FindAnnotation(s.annotations, annotationId);
                && r.value == Patched(s.annotations[i], u, now)
                && sessions == Set(old(sessions), sessionId, Rewritten(s, i, r.value, now))
    {
      if sessionId !in sessions.vals {
        return None;
      }
      var s := sessions.vals[sessionId];
      var i := FindAnnotation(s.annotations, annotationId);
      if i == -1 {
        return None;
      }
      var updated := Patched(s.annotations[i], u, now);
      sessions := Set(sessions, sessionId, Rewritten(s, i, updated, now));
      return Some(updated);
    }

    /** `addAnnotationReply`, with `replyId` the freshly generated id. */
    method AddAnnotationReply(sessionId: string, annotationId: string, d: ReplyDraft, replyId: string, now: int)
      returns (r: Option<Reply>)
      requires Valid()
      modifies this
      ensures Valid()
      ensures r.None? <==> sessionId !in old(sessions).vals || FindAnnotation(old(sessions).vals[sessionId].annotations, annotationId) < 0
      ensures r.None? ==> sessions == old(sessions)
      ensures r.Some? ==>
                var s := old(sessions).vals[sessionId];
                var i := FindAnnotation(s.annotations, annotationId);
                && r.value == Reply(replyId, d.authorId, d.authorName, d.content, now)
                && sessions == Set(old(sessions), sessionId, Rewritten(s, i, WithReply(s.annotations[i], r.value, now), now))
    {
      if sessionId !in sessions.vals {
        return None;
      }
      var s := sessions.vals[sessionId];
      var i := FindAnnotation(s.annotations, annotationId);
      if i < 0 {
        return None;
      }
      var reply := Reply(replyId, d.authorId, d.authorName, d.content, now);
      sessions := Set(sessions, sessionId, Rewritten(s, i, WithReply(s.annotations[i], reply, now), now));
      return Some(reply);
    }

    /** `deleteAnnotation`: a soft delete, by the author or an admin only. */
    method DeleteAnnotation(sessionId: string, annotationId: string, deleterId: string, now: int) returns (deleted: bool)
      requires Valid()
      modifies this
      ensures Valid()
      ensures deleted <==> sessionId in old(sessions).vals
                           && FindAnnotation(old(sessions).vals[sessionId].annotations, annotationId) >= 0
                           && MayDelete(old(sessions).vals[sessionId],
                                        old(sessions).vals[sessionId].annotations[FindAnnotation(old(sessions).vals[sessionId].annotations, annotationId)],
                                        deleterId)
      ensures !deleted ==> sessions == old(sessions)
      ensures deleted ==>
                var s := old(sessions).vals[sessionId];
                var i := FindAnnotation(s.annotations, annotationId);
                sessions == Set(old(sessions), sessionId, Rewritten(s, i, SoftDeleted(s.annotations[i], now), now))
    {
      if sessionId !in sessions.vals {
        return false;
      }
      var s := sessions.vals[sessionId];
      var i := FindAnnotation(s.annotations, annotationId);
      if i == -1 {
        return false;
      }
      var a := s.annotations[i];
      if a.authorId != deleterId && !(deleterId in s.participants.vals && s.participants.vals[deleterId].role == Admin) {
        return false;
      }
      sessions := Set(sessions, sessionId, Rewritten(s, i, SoftDeleted(a, now), now));
      return true;
    }

    /** `syncDocumentState` */
    method SyncDocumentState(sessionId: string, participantId: string, state: string, now: int)
      requires Valid()
      modifies this
      ensures Valid()
      ensures sessionId !in old(sessions).vals ==> sessions == old(sessions)
      ensures sessionId in old(sessions).vals ==>
                sessions == Set(old(sessions), sessionId, old(sessions).vals[sessionId].(documentState := state, lastActivity := now))
    {
      if sessionId !in sessions.vals {
        return;
      }
      sessions := Set(sessions, sessionId, sessions.vals[sessionId].(documentState := state, lastActivity := now));
    }

    /** `getSessionInfo` */
    function GetSessionInfo(sessionId: string): (r: Option<Session>)
      reads this
      ensures r.Some? <==> sessionId in sessions.vals
      ensures Valid() && r.Some? ==> r.value.id == sessionId
    {
      Get(sessions, sessionId)
    }

    /** `getActiveParticipants`: empty for an unknown session. */
    function GetActiveParticipants(sessionId: string): (r: seq<Participant>)
      requires Valid()
      reads this
      ensures sessionId !in sessions.vals ==> r == []
      ensures forall p :: p in r ==> p.isActive
    {
      if sessionId !in sessions.vals then []
      else
        ActiveParticipantsAreActive(sessions.vals[sessionId]);
        ActiveParticipants(sessions.vals[sessionId])
    }

    /** `getSessionAnnotations`: empty for an unknown session. */
    function GetSessionAnnotations(sessionId: string): (r: seq<Annotation>)
      reads this
      ensures sessionId !in sessions.vals ==> r == []
      ensures forall a :: a in r ==> a.status == Active
    {
      if sessionId !in sessions.vals then [] else LiveAnnotations(sessions.vals[sessionId])
    }

    /** `cleanupInactiveSessions`: deletes each session idle at `now` while walking the map. */
    method CleanupInactiveSessions(now: int) returns (cleanedCount: nat)
      requires Valid()
      modifies this
      ensures Valid()
      ensures sessions == Sweep(old(sessions), old(sessions).keys, now)
      ensures cleanedCount == IdleCount(old(sessions), old(sessions).keys, now)
    {
      var store := sessions;
      var keys := sessions.keys;
      cleanedCount := 0;
      for i := 0 to |keys|
        invariant sessions == Sweep(store, keys[..i], now)
        invariant cleanedCount == IdleCount(store, keys[..i], now)
      {
        var sessionId := keys[i];
        var session := store.vals[sessionId];
        SweepNext(store, keys, i, now);
        if now - session.lastActivity > InactiveThreshold {
          sessions := Delete(sessions, sessionId);
          cleanedCount := cleanedCount + 1;
        }
      }
      assert keys[..|keys|] == keys;
      SweepEffect(store, now);
    }

    /** `getSessionStats` */
    method GetSessionStats() returns (stats: SessionStats)
      requires Valid()
      ensures stats == Tally(Values(sessions))
      ensures stats.totalSessions == Size(sessions)
    {
      var values := Values(sessions);
      var activeSessions: nat, totalParticipants: nat, totalAnnotations: nat := 0, 0, 0;
      for i := 0 to |values|
        invariant Tally(values[..i]) == SessionStats(i, activeSessions, totalParticipants, totalAnnotations)
      {
        var session := values[i];
        assert values[..i + 1][..i] == values[..i];
        if Size(session.participants) > 0 {
          activeSessions := activeSessions + 1;
        }
        totalParticipants := totalParticipants + Size(session.participants);
        totalAnnotations := totalAnnotations + |session.annotations|;
      }
      assert values[..|values|] == values;
      stats := SessionStats(Size(sessions), activeSessions, totalParticipants, totalAnnotations);
    }

    /** `updateParticipantSocket`: a known participant takes the socket and is active again. */
    method UpdateParticipantSocket(sessionId: string, participantId: string, socketId: string)
      requires Valid()
      modifies this
      ensures Valid()
      ensures sessionId !in old(sessions).vals || participantId !in old(sessions).vals[sessionId].participants.vals ==>
                sessions == old(sessions)
      ensures sessionId in old(sessions).vals && participantId in old(sessions).vals[sessionId].participants.vals ==>
                sessions == Set(old(sessions), sessionId, Reconnected(old(sessions).vals[sessionId], participantId, socketId))
    {
      if sessionId !in sessions.vals {
        return;
      }
      var s := sessions.vals[sessionId];
      if participantId in s.participants.vals {
        sessions := Set(sessions, sessionId, Reconnected(s, participantId, socketId));
      }
    }

    /** `handleParticipantDisconnect`: the first participant, in map order, on the socket leaves. */
    method HandleParticipantDisconnect(socketId: string, now: int)
      requires Valid()
      modifies this
      ensures Valid()
      ensures SocketSession(old(sessions), old(sessions).keys, socketId).None? ==> sessions == old(sessions)
      ensures SocketSession(old(sessions), old(sessions).keys, socketId).Some? ==>
                var found := SocketSession(old(sessions), old(sessions).keys, socketId).value;
                sessions == Leave(old(sessions), found.0, found.1, now)
    {
      var keys := sessions.keys;
      var i := 0;
      while i < |keys|
        invariant i <= |keys| && sessions == old(sessions)
        invariant SocketSession(sessions, keys, socketId) == SocketSession(sessions, keys[i..], socketId)
      {
        var sessionId := keys[i];
        assert keys[i..][0] == sessionId && keys[i..][1..] == keys[i + 1..];
        var session := sessions.vals[sessionId];
        var pkeys := session.participants.keys;
        var j := 0;
        while j < |pkeys|
          invariant j <= |pkeys| && sessions == old(sessions)
          invariant SocketOwner(session.participants, pkeys, socketId) == SocketOwner(session.participants, pkeys[j..], socketId)
        {
          var participantId := pkeys[j];
          assert pkeys[j..][0] == participantId && pkeys[j..][1..] == pkeys[j + 1..];
          if session.participants.vals[participantId].socketId == socketId {
            MarkThenLeave(sessions, sessionId, participantId, now);
            MarkedInactiveValid(sessions, sessionId, participantId);
            sessions := MarkedInactive(sessions, sessionId, participantId);
            LeaveSession(sessionId, participantId, now);
            return;
          }
          j := j + 1;
        }
        i := i + 1;
      }
    }
  }

  lemma ActiveParticipantsAreActive(s: Session)
    requires SessionValid(s)
    ensures forall p :: p in ActiveParticipants(s) ==> p.isActive
  {
    Seqs.FilterMembers(Values(s.participants), IsPresent);
  }
}
