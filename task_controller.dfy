/** backend/controllers/taskController.js: the daily task flow of a user (which tasks are
    available, starting one, completing one) and the admin's catalog edits. */
module TaskController {
  import opened Outcomes
  import opened Ids
  import opened UserModel
  import PackageModel
  import opened TaskModel
  import UT = UserTaskModel
  import T = TransactionModel
  import Ledger
  import Listing
  import opened Store

  /** An attempt that uses up quota: the user's, completed, with completedAt on or after the
      start of today. Attempts in any other status do not count. */
  predicate CountsTowardQuota(ut: UT.UserTask, uid: UserId, todayStart: int) {
    ut.user == uid && ut.status == UT.Completed && ut.completedAt.Some? && ut.completedAt.value >= todayStart
  }

  /** The number of tasks the user completed today. */
  function CompletedToday(userTasks: seq<UT.UserTask>, uid: UserId, todayStart: int): (r: nat)
    ensures r <= |userTasks|
    ensures r == 0 <==> forall i :: 0 <= i < |userTasks| ==> !CountsTowardQuota(userTasks[i], uid, todayStart)
  {
    Listing.Count(userTasks, (ut: UT.UserTask) => CountsTowardQuota(ut, uid, todayStart))
  }

  /** An attempt that hides its task from the available list: completedAt today, whatever
      the attempt's status. */
  predicate FinishedToday(ut: UT.UserTask, uid: UserId, tid: TaskId, todayStart: int) {
    ut.user == uid && ut.task == tid && ut.completedAt.Some? && ut.completedAt.value >= todayStart
  }

  /** An attempt that blocks a new start of its task: created today, whatever its status. */
  predicate StartedToday(ut: UT.UserTask, uid: UserId, tid: TaskId, todayStart: int) {
    ut.user == uid && ut.task == tid && ut.createdAt >= todayStart
  }

  /** The catalog slot holds a task that is switched on. */
  predicate IsActiveTask(tasks: seq<Option<Task>>, tid: nat) {
    tid < |tasks| && tasks[tid].Some? && tasks[tid].value.isActive
  }

  /** The response of getAvailableTasks. */
  datatype Available = Available(
    tasks: seq<TaskId>,
    completedToday: nat,
    tasksAllowed: int,
    tasksRemaining: int,
    rewardPerTask: int)

  /** getAvailableTasks for user `uid`: nothing without a package; an empty list once the
      quota is used up; otherwise the active tasks not completed today. */
  function GetAvailableTasks(users: seq<User>, packages: seq<PackageModel.Package>, tasks: seq<Option<Task>>,
                             userTasks: seq<UT.UserTask>, uid: UserId, todayStart: int): (r: Result<Available>)
    requires UsersValid(users, |packages|) && uid < |users|
    ensures r.Err? <==> users[uid].currentPackage.None?
    ensures r.Err? ==> r.error == NoActivePackage
    ensures r.Ok? ==>
      var pkg := packages[users[uid].currentPackage.value];
      && r.value.completedToday == CompletedToday(userTasks, uid, todayStart)
      && r.value.tasksAllowed == pkg.tasksPerDay && r.value.rewardPerTask == pkg.rewardPerTask
      && r.value.tasksRemaining == pkg.tasksPerDay - r.value.completedToday
    ensures r.Ok? && r.value.tasksRemaining <= 0 ==> r.value.tasks == []
    ensures r.Ok? && r.value.tasksRemaining > 0 ==>
      forall t: nat :: t in r.value.tasks <==>
        IsActiveTask(tasks, t) && !exists i :: 0 <= i < |userTasks| && FinishedToday(userTasks[i], uid, t, todayStart)
  {
    match users[uid].currentPackage
    case None => Err(NoActivePackage)
    case Some(p) =>
      var pkg := packages[p];
      var done := CompletedToday(userTasks, uid, todayStart);
      var remaining := pkg.tasksPerDay - done;
      if remaining <= 0 then Ok(Available([], done, pkg.tasksPerDay, remaining, pkg.rewardPerTask))
      else
        var listed := Listing.IdsWhere(|tasks|, (t: nat) =>
          IsActiveTask(tasks, t) && !exists i :: 0 <= i < |userTasks| && FinishedToday(userTasks[i], uid, t, todayStart));
        Ok(Available(listed, done, pkg.tasksPerDay, remaining, pkg.rewardPerTask))
  }

  /** The two tests disagree: a task started today and not yet completed is listed as
      available, although starting it again is refused. */
  lemma StartedTaskStillListed(users: seq<User>, packages: seq<PackageModel.Package>, tasks: seq<Option<Task>>,
                               userTasks: seq<UT.UserTask>, uid: UserId, todayStart: int, t: TaskId, i: nat)
    requires UsersValid(users, |packages|) && uid < |users|
    requires GetAvailableTasks(users, packages, tasks, userTasks, uid, todayStart).Ok?
    requires GetAvailableTasks(users, packages, tasks, userTasks, uid, todayStart).value.tasksRemaining > 0
    requires IsActiveTask(tasks, t)
    requires i < |userTasks| && StartedToday(userTasks[i], uid, t, todayStart)
    requires forall j :: 0 <= j < |userTasks| ==> userTasks[j].completedAt.None?
    ensures t in GetAvailableTasks(users, packages, tasks, userTasks, uid, todayStart).value.tasks
  {
  }

  /** And the other way: a task started before today but completed today is hidden from the
      list, although nothing started today blocks a new start of it. */
  lemma CompletedTaskHiddenButStartable(users: seq<User>, packages: seq<PackageModel.Package>, tasks: seq<Option<Task>>,
                                        userTasks: seq<UT.UserTask>, uid: UserId, todayStart: int, t: TaskId, i: nat)
    requires UsersValid(users, |packages|) && uid < |users|
    requires GetAvailableTasks(users, packages, tasks, userTasks, uid, todayStart).Ok?
    requires i < |userTasks| && userTasks[i].user == uid && userTasks[i].task == t
    requires userTasks[i].createdAt < todayStart && userTasks[i].completedAt == Some(todayStart)
    ensures t !in GetAvailableTasks(users, packages, tasks, userTasks, uid, todayStart).value.tasks
    ensures !StartedToday(userTasks[i], uid, t, todayStart)
  {
    assert FinishedToday(userTasks[i], uid, t, todayStart);
  }

  /** startTask, for user `uid` and catalog task `taskId`. The checks run in this order: a
      package is held, the task exists and is active, the quota is not used up, and no
      attempt at the task was created today. */
  method StartTask(db: Database, uid: UserId, taskId: nat, now: int, todayStart: int) returns (r: Result<UserTaskId>)
    requires db.Valid() && uid < |db.users|
    modifies db`userTasks
    ensures db.Valid()
    ensures db.users[uid].currentPackage.None? ==> r == Err(NoActivePackage)
    ensures db.users[uid].currentPackage.Some? && !IsActiveTask(db.tasks, taskId) ==> r == Err(TaskNotFound)
    ensures db.users[uid].currentPackage.Some? && IsActiveTask(db.tasks, taskId)
            && old(CompletedToday(db.userTasks, uid, todayStart)) >= db.packages[db.users[uid].currentPackage.value].tasksPerDay
            ==> r == Err(DailyLimitReached)
    ensures db.users[uid].currentPackage.Some? && IsActiveTask(db.tasks, taskId)
            && old(CompletedToday(db.userTasks, uid, todayStart)) < db.packages[db.users[uid].currentPackage.value].tasksPerDay
            && old(exists i :: 0 <= i < |db.userTasks| && StartedToday(db.userTasks[i], uid, taskId, todayStart))
            ==> r == Err(AlreadyStartedToday)
    ensures r.Ok? <==>
      && db.users[uid].currentPackage.Some? && IsActiveTask(db.tasks, taskId)
      && old(CompletedToday(db.userTasks, uid, todayStart)) < db.packages[db.users[uid].currentPackage.value].tasksPerDay
      && old(forall i :: 0 <= i < |db.userTasks| ==> !StartedToday(db.userTasks[i], uid, taskId, todayStart))
    ensures r.Err? ==> db.userTasks == old(db.userTasks)
    ensures r.Ok? ==> r.value == old(|db.userTasks|)
    ensures r.Ok? ==> db.userTasks == old(db.userTasks) +
                        [UT.UserTask(uid, taskId, UT.InProgress, db.packages[db.users[uid].currentPackage.value].rewardPerTask, None, now)]
    ensures forall v, d :: CompletedToday(db.userTasks, v, d) == old(CompletedToday(db.userTasks, v, d))
  {
    var user := db.users[uid];
    if user.currentPackage.None? {
      return Err(NoActivePackage);
    }
    var pkg := db.packages[user.currentPackage.value];
    if !IsActiveTask(db.tasks, taskId) {
      return Err(TaskNotFound);
    }
    if CompletedToday(db.userTasks, uid, todayStart) >= pkg.tasksPerDay {
      return Err(DailyLimitReached);
    }
    if exists i :: 0 <= i < |db.userTasks| && StartedToday(db.userTasks[i], uid, taskId, todayStart) {
      return Err(AlreadyStartedToday);
    }
    var attempt := UT.UserTask(uid, taskId, UT.InProgress, pkg.rewardPerTask, None, now);
    forall v, d ensures CompletedToday(db.userTasks + [attempt], v, d) == CompletedToday(db.userTasks, v, d) {
      Listing.CountAppend(db.userTasks, attempt, (ut: UT.UserTask) => CountsTowardQuota(ut, v, d));
    }
    db.userTasks := db.userTasks + [attempt];
    r := Ok(|db.userTasks| - 1);
  }

  /** The reward entry a completion appends. */
  function RewardEntry(uid: UserId, ut: UT.UserTask, now: int): T.Transaction {
    T.Transaction(uid, T.TaskReward, ut.reward, T.Completed, now, Some(ut.task), None, None, None)
  }

  /** completeTask, for user `uid` and attempt `utid`. The attempt must exist, be the
      caller's and not be completed already; the quota is not checked again. The attempt is
      saved as completed and the wallet credited before the reward entry is written, and
      writing that entry reads the catalog task's title. When the task has been deleted the
      populated reference is null (validation falls back to the stored id, so both saves
      succeed) and the handler fails at that read: the attempt and the wallet are already
      changed and no ledger entry is written. */
  method CompleteTask(db: Database, uid: UserId, utid: nat, now: int) returns (r: Result<()>)
    requires db.Valid() && uid < |db.users|
    modifies db`users, db`userTasks, db`ledger
    ensures db.Valid()
    ensures utid >= old(|db.userTasks|) ==> r == Err(TaskNotFound)
    ensures utid < old(|db.userTasks|) && old(db.userTasks[utid].user) != uid ==> r == Err(NotOwner)
    ensures utid < old(|db.userTasks|) && old(db.userTasks[utid].user) == uid && old(db.userTasks[utid].status) == UT.Completed
            ==> r == Err(AlreadyCompleted)
    ensures utid < old(|db.userTasks|) && old(db.userTasks[utid].user) == uid && old(db.userTasks[utid].status) != UT.Completed
              && db.tasks[old(db.userTasks[utid].task)].None?
            ==> r == Err(TaskReferenceMissing)
    ensures r.Ok? <==> utid < old(|db.userTasks|) && old(db.userTasks[utid].user) == uid
                       && old(db.userTasks[utid].status) != UT.Completed && db.tasks[old(db.userTasks[utid].task)].Some?
    ensures r.Err? && r.error != TaskReferenceMissing ==>
      db.users == old(db.users) && db.userTasks == old(db.userTasks) && db.ledger == old(db.ledger)
    ensures r.Ok? || r == Err(TaskReferenceMissing) ==>
      var ut := old(db.userTasks[utid]);
      && db.userTasks == old(db.userTasks)[utid := ut.(status := UT.Completed, completedAt := Some(now))]
      && db.users == old(db.users)[uid := TaskRewarded(old(db.users[uid]), ut.reward)]
    ensures r.Ok? ==> db.ledger == old(db.ledger) + [RewardEntry(uid, old(db.userTasks[utid]), now)]
    ensures r == Err(TaskReferenceMissing) ==> db.ledger == old(db.ledger)
    ensures r.Ok? && old(db.Reconciled()) ==> db.Reconciled()
    ensures r == Err(TaskReferenceMissing) && old(db.Reconciled()) ==>
      db.users[uid].wallet.balance == Ledger.LedgerBalance(db.ledger, uid) + old(db.userTasks[utid].reward)
    ensures r == Err(TaskReferenceMissing) && old(db.Reconciled()) && old(db.userTasks[utid].reward) != 0 ==> !db.Reconciled()
  {
    if utid >= |db.userTasks| {
      return Err(TaskNotFound);
    }
    var ut := db.userTasks[utid];
    if ut.user != uid {
      return Err(NotOwner);
    }
    if ut.status == UT.Completed {
      return Err(AlreadyCompleted);
    }
    ghost var L, U := db.ledger, db.users;
    db.userTasks := db.userTasks[utid := ut.(status := UT.Completed, completedAt := Some(now))];
    var user := db.users[uid];
    SetUserKeepsValid(db.users, |db.packages|, uid, TaskRewarded(user, ut.reward));
    db.users := db.users[uid := TaskRewarded(user, ut.reward)];
    if db.tasks[ut.task].None? {
      if BalancesMatchLedger(U, L) {
        assert U[uid].wallet.balance == Ledger.LedgerBalance(L, uid);
      }
      return Err(TaskReferenceMissing);
    }
    var entry := RewardEntry(uid, ut, now);
    db.ledger := db.ledger + [entry];
    forall v | 0 <= v < |db.users|
      ensures Ledger.LedgerBalance(db.ledger, v) == Ledger.LedgerBalance(L, v) + (if v == uid then ut.reward else 0)
    {
      Ledger.LedgerBalanceAppend(L, entry, v);
    }
    r := Ok(());
  }

  /** Completing today an attempt that did not yet count uses up one unit of quota: the
      quota is not re-checked at completion, so completions may exceed tasksPerDay. */
  lemma CompletionCountsOnce(userTasks: seq<UT.UserTask>, utid: nat, uid: UserId, now: int, todayStart: int)
    requires utid < |userTasks| && userTasks[utid].user == uid && userTasks[utid].status != UT.Completed
    requires now >= todayStart
    ensures CompletedToday(userTasks[utid := userTasks[utid].(status := UT.Completed, completedAt := Some(now))], uid, todayStart)
         == CompletedToday(userTasks, uid, todayStart) + 1
  {
    Listing.CountSet(userTasks, utid, userTasks[utid].(status := UT.Completed, completedAt := Some(now)),
                     (ut: UT.UserTask) => CountsTowardQuota(ut, uid, todayStart));
  }

  /** JavaScript's String.prototype.trim removes these: white space and line terminators. */
  predicate IsJsSpace(c: char) {
    || c == ' ' || c == '\t' || c == '\n' || c == '\r' || c == '\U{000B}' || c == '\U{000C}'
    || c == '\U{00A0}' || c == '\U{1680}' || '\U{2000}' <= c <= '\U{200A}'
    || c == '\U{2028}' || c == '\U{2029}' || c == '\U{202F}' || c == '\U{205F}'
    || c == '\U{3000}' || c == '\U{FEFF}'
  }

  /** `!s.trim()`: nothing is left after trimming. */
  predicate IsBlank(s: string) {
    forall i :: 0 <= i < |s| ==> IsJsSpace(s[i])
  }

  /** The fields of a create or update request body; `None` is a field left undefined. */
  datatype TaskFields = TaskFields(
    title: Option<string>,
    description: Option<string>,
    kind: Option<Type>,
    url: Option<string>,
    duration: Option<int>,
    isActive: Option<bool>)

  /** The task Task.create stores for the body: absent fields take the schema defaults. */
  function NewTask(f: TaskFields): (t: Task)
    requires Truthy(f.title) && Truthy(f.description)
    ensures t.title == f.title.value && t.description == f.description.value && t.url == f.url
    ensures t.kind == (if f.kind.Some? then f.kind.value else DefaultType)
    ensures t.duration == (if f.duration.Some? then f.duration.value else DefaultDuration)
    ensures t.isActive == (if f.isActive.Some? then f.isActive.value else DefaultIsActive)
  {
    Task(f.title.value, f.description.value,
         if f.kind.Some? then f.kind.value else DefaultType,
         f.url,
         if f.duration.Some? then f.duration.value else DefaultDuration,
         if f.isActive.Some? then f.isActive.value else DefaultIsActive)
  }

  /** The update of updateTask: a non-empty title or description replaces the old one, and
      each other field replaces the old one when it is given. */
  function Patched(t: Task, f: TaskFields): (u: Task)
    ensures u.title == (if Truthy(f.title) then f.title.value else t.title)
    ensures u.description == (if Truthy(f.description) then f.description.value else t.description)
    ensures u.kind == (if f.kind.Some? then f.kind.value else t.kind)
    ensures u.url == (if f.url.Some? then f.url else t.url)
    ensures u.duration == (if f.duration.Some? then f.duration.value else t.duration)
    ensures u.isActive == (if f.isActive.Some? then f.isActive.value else t.isActive)
  {
    Task(if Truthy(f.title) then f.title.value else t.title,
         if Truthy(f.description) then f.description.value else t.description,
         if f.kind.Some? then f.kind.value else t.kind,
         if f.url.Some? then f.url else t.url,
         if f.duration.Some? then f.duration.value else t.duration,
         if f.isActive.Some? then f.isActive.value else t.isActive)
  }

  /** An update carrying no fields leaves the task as it was. */
  lemma EmptyPatch(t: Task)
    ensures Patched(t, TaskFields(None, None, None, None, None, None)) == t
  {
  }

  /** createTask: title and description must both be truthy (a blank but non-empty title
      passes); the new task goes at the end of the catalog. */
  method CreateTask(db: Database, caller: UserId, f: TaskFields) returns (r: Result<TaskId>)
    requires db.Valid() && IsAdmin(db, caller)
    modifies db`tasks
    ensures db.Valid()
    ensures r.Err? <==> !Truthy(f.title) || !Truthy(f.description)
    ensures r.Err? ==> r.error == MissingTitleOrDescription && db.tasks == old(db.tasks)
    ensures r.Ok? ==> r.value == old(|db.tasks|) && db.tasks == old(db.tasks) + [Some(NewTask(f))]
  {
    if !Truthy(f.title) || !Truthy(f.description) {
      return Err(MissingTitleOrDescription);
    }
    db.tasks := db.tasks + [Some(NewTask(f))];
    r := Ok(|db.tasks| - 1);
  }

  /** The catalog slot holds a task (deleted or never created slots do not). */
  predicate Exists(tasks: seq<Option<Task>>, tid: nat) {
    tid < |tasks| && tasks[tid].Some?
  }

  /** updateTask: a given title, then a given description, that is blank is refused before
      anything is written. */
  method UpdateTask(db: Database, caller: UserId, taskId: nat, f: TaskFields) returns (r: Result<()>)
    requires db.Valid() && IsAdmin(db, caller)
    modifies db`tasks
    ensures db.Valid()
    ensures !Exists(old(db.tasks), taskId) ==> r == Err(TaskNotFound)
    ensures Exists(old(db.tasks), taskId) && f.title.Some? && IsBlank(f.title.value) ==> r == Err(EmptyTitle)
    ensures Exists(old(db.tasks), taskId) && !(f.title.Some? && IsBlank(f.title.value)) && f.description.Some? && IsBlank(f.description.value)
            ==> r == Err(EmptyDescription)
    ensures r.Ok? <==> Exists(old(db.tasks), taskId) && !(f.title.Some? && IsBlank(f.title.value))
                       && !(f.description.Some? && IsBlank(f.description.value))
    ensures r.Err? ==> db.tasks == old(db.tasks)
    ensures r.Ok? ==> db.tasks == old(db.tasks)[taskId := Some(Patched(old(db.tasks[taskId].value), f))]
    ensures r.Ok? && f.title.Some? ==> db.tasks[taskId].value.title == f.title.value
    ensures r.Ok? && f.description.Some? ==> db.tasks[taskId].value.description == f.description.value
  {
    if !Exists(db.tasks, taskId) {
      return Err(TaskNotFound);
    }
    if f.title.Some? && IsBlank(f.title.value) {
      return Err(EmptyTitle);
    }
    if f.description.Some? && IsBlank(f.description.value) {
      return Err(EmptyDescription);
    }
    db.tasks := db.tasks[taskId := Some(Patched(db.tasks[taskId].value, f))];
    r := Ok(());
  }

  /** deleteTask: the slot is emptied; attempts that refer to it keep the dangling id. */
  method DeleteTask(db: Database, caller: UserId, taskId: nat) returns (r: Result<()>)
    requires db.Valid() && IsAdmin(db, caller)
    modifies db`tasks
    ensures db.Valid()
    ensures r.Err? <==> !Exists(old(db.tasks), taskId)
    ensures r.Err? ==> r.error == TaskNotFound && db.tasks == old(db.tasks)
    ensures r.Ok? ==> db.tasks == old(db.tasks)[taskId := None]
  {
    if !Exists(db.tasks, taskId) {
      return Err(TaskNotFound);
    }
    db.tasks := db.tasks[taskId := None];
    r := Ok(());
  }

  /** toggleTaskStatus: flips the task's active flag and nothing else. */
  method ToggleTaskStatus(db: Database, caller: UserId, taskId: nat) returns (r: Result<()>)
    requires db.Valid() && IsAdmin(db, caller)
    modifies db`tasks
    ensures db.Valid()
    ensures r.Err? <==> !Exists(old(db.tasks), taskId)
    ensures r.Err? ==> r.error == TaskNotFound && db.tasks == old(db.tasks)
    ensures r.Ok? ==> db.tasks == old(db.tasks)[taskId := Some(old(db.tasks[taskId].value).(isActive := !old(db.tasks[taskId].value.isActive)))]
  {
    if !Exists(db.tasks, taskId) {
      return Err(TaskNotFound);
    }
    var t := db.tasks[taskId].value;
    db.tasks := db.tasks[taskId := Some(t.(isActive := !t.isActive))];
    r := Ok(());
  }
}
