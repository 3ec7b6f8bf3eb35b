/** The bot's event handlers. Each handler either returns early after a guard
    or calls the ticket store; the platform calls it makes (replies, thread
    messages, archival) are returned as a trace of actions, in the order the
    handler performs them, so that the guards and their order are visible. */
module BotHandlers {
  import opened Database
  import opened BotRules

  /** Texts the bot sends, by meaning. */
  datatype Notice =
    | NotAuthorizedToUpdate
    | NotAuthorizedToDelete
    | NotAuthorizedToExport
    | InvalidDeadlineFormat
    | TicketCreated
    | TicketAssigned(team: string)
    | TicketUpdatedPing(mention: string)
    | MarkedCompleted
    | ThreadWillArchive
    | TicketRemoved
    | TicketPermanentlyRemoved

  datatype Action =
    | Reply(notice: Notice)                    // a reply to the actor
    | Post(notice: Notice)                     // a message posted into the ticket thread
    | ShowUpdateForm                           // the "Update Ticket Details" form opens
    | CreateThread(name: string)
    | PostPanel(title: string, description: string)  // the ticket embed with its action panel
    | RepostOpenButton                         // the "Open Ticket" button is posted again
    | ShowAssignment(team: string, mention: string, priority: string, deadline: string)
    | Retitle(title: string)                   // the panel embed gets a new title
    | Archive(locked: bool)
    | LogArchiveFailure
    | StoreSave(draft: Draft)
    | StoreUpdate(tid: string, team: string, priority: string, deadline: string)
    | StoreComplete(tid: string)
    | StoreDelete(tid: string)
    | AttachReport(report: seq<seq<Cell>>)

  /** How archival of the thread on completion went: each of its two calls may raise. */
  datatype ArchiveOutcome = Archived | NoticeFailed | ArchiveFailed

  class Bot {
    /** The process-wide counter of submitted tickets, used only in thread names. */
    var ticketCounter: nat
    const store: TicketTable

    ghost predicate Valid()
      reads this, store
    {
      store.Valid() && ticketCounter >= 1
    }

    /** A ready bot: the table exists. */
    ghost predicate Ready()
      reads this, store
    {
      Valid() && store.tableExists
    }

    constructor (store: TicketTable)
      requires store.Valid()
      ensures Valid() && this.store == store && ticketCounter == 1
    {
      this.store := store;
      ticketCounter := 1;
    }

    /** `on_ready`: creates the table if needed, then posts the "Open Ticket" button. */
    method OnReady() returns (actions: seq<Action>)
      requires Valid()
      modifies store
      ensures Ready()
      ensures store.rows == old(store.rows) && store.nextId == old(store.nextId)
      ensures actions == [RepostOpenButton]
    {
      store.InitDb();
      actions := [RepostOpenButton];
    }

    /** `TicketModal.on_submit`: names the thread after the counter and title,
        advances the counter by one, opens the thread and saves the ticket under
        the new thread's id. */
    method SubmitTicket(title: string, description: string, author: string, threadId: string, now: Time)
      returns (actions: seq<Action>)
      requires Ready()
      modifies this, store
      ensures Ready()
      ensures ticketCounter == old(ticketCounter) + 1
      ensures store.nextId == old(store.nextId) + 1
      ensures var d := Draft(title, description, Some(""), Some(""), Some(""), author, threadId);
        && store.rows == old(store.rows) + [NewTicket(old(store.nextId), d, now)]
        && actions == [CreateThread(ThreadName(old(ticketCounter), title)), Reply(TicketCreated),
                       StoreSave(d), PostPanel(NewTicketTitle(title), description), RepostOpenButton]
    {
      var name := ThreadName(ticketCounter, title);
      ticketCounter := ticketCounter + 1;
      var d := Draft(title, description, Some(""), Some(""), Some(""), author, threadId);
      actions := [CreateThread(name), Reply(TicketCreated)];
      store.SaveTicket(d, now);
      actions := actions + [StoreSave(d), PostPanel(NewTicketTitle(title), description), RepostOpenButton];
    }

    /** `UpdateTicketButton.callback`: only a privileged actor gets the form. */
    method PressUpdate(roles: seq<RoleId>) returns (actions: seq<Action>)
      ensures HasPmRole(roles) ==> actions == [ShowUpdateForm]
      ensures !HasPmRole(roles) ==> actions == [Reply(NotAuthorizedToUpdate)]
    {
      if !HasPmRole(roles) {
        return [Reply(NotAuthorizedToUpdate)];
      }
      actions := [ShowUpdateForm];
    }

    /** `UpdateTicketModal.on_submit`: the role gate, then the deadline gate,
        and only past both the store update, as the last step. */
    method SubmitUpdate(roles: seq<RoleId>, threadId: string, team: string, priority: string, deadlineText: string)
      returns (actions: seq<Action>)
      requires Ready()
      modifies store
      ensures Ready() && store.nextId == old(store.nextId)
      ensures !HasPmRole(roles) ==> actions == [Reply(NotAuthorizedToUpdate)] && store.rows == old(store.rows)
      ensures HasPmRole(roles) && ReformatDeadline(deadlineText).None? ==>
        actions == [Reply(InvalidDeadlineFormat)] && store.rows == old(store.rows)
      ensures HasPmRole(roles) && ReformatDeadline(deadlineText).Some? ==>
        var deadline := ReformatDeadline(deadlineText).value;
        && store.rows == UpdateWhere(old(store.rows), threadId, Assign(team, priority, deadline))
        && actions == [ShowAssignment(team, Mention(team), priority, deadline), Reply(TicketAssigned(team)),
                       Post(TicketUpdatedPing(Mention(team))), StoreUpdate(threadId, team, priority, deadline)]
    {
      if !HasPmRole(roles) {
        return [Reply(NotAuthorizedToUpdate)];
      }
      var parsed := ReformatDeadline(deadlineText);
      if parsed.None? {
        return [Reply(InvalidDeadlineFormat)];
      }
      var deadline := parsed.value;
      var mention := Mention(team);
      actions := [ShowAssignment(team, mention, priority, deadline), Reply(TicketAssigned(team)),
                  Post(TicketUpdatedPing(mention))];
      store.UpdateTicket(threadId, team, priority, deadline);
      actions := actions + [StoreUpdate(threadId, team, priority, deadline)];
    }

    /** `CompleteButton.callback`: no role check; retitles the panel, tries to
        archive the thread (a failure is only logged) and then marks the ticket
        completed, whatever archival did. */
    method PressComplete(threadId: string, panelTitle: string, archival: ArchiveOutcome, now: Time)
      returns (actions: seq<Action>)
      requires Ready()
      modifies store
      ensures Ready() && store.nextId == old(store.nextId)
      ensures store.rows == UpdateWhere(old(store.rows), threadId, Complete(now))
      ensures |actions| >= 3 && actions[0] == Retitle(CompletedTitle(panelTitle))
      ensures actions[|actions| - 1] == StoreComplete(threadId)
      ensures Archive(false) in actions <==> archival == Archived
      ensures LogArchiveFailure in actions <==> archival != Archived
      ensures var head := [Retitle(CompletedTitle(panelTitle)), Reply(MarkedCompleted)];
        && (archival == Archived ==> actions == head + [Post(ThreadWillArchive), Archive(false), StoreComplete(threadId)])
        && (archival == NoticeFailed ==> actions == head + [LogArchiveFailure, StoreComplete(threadId)])
        && (archival == ArchiveFailed ==> actions == head + [Post(ThreadWillArchive), LogArchiveFailure, StoreComplete(threadId)])
    {
      actions := [Retitle(CompletedTitle(panelTitle)), Reply(MarkedCompleted)];
      match archival {
        case Archived => actions := actions + [Post(ThreadWillArchive), Archive(false)];
        case NoticeFailed => actions := actions + [LogArchiveFailure];
        case ArchiveFailed => actions := actions + [Post(ThreadWillArchive), LogArchiveFailure];
      }
      store.MarkTicketCompleted(threadId, now);
      actions := actions + [StoreComplete(threadId)];
    }

    /** `DeleteTicketButton.callback`: the role gate, then the store deletion,
        and only after it the thread is archived and locked. */
    method PressDelete(roles: seq<RoleId>, threadId: string) returns (actions: seq<Action>)
      requires Ready()
      modifies store
      ensures Ready() && store.nextId == old(store.nextId)
      ensures !HasPmRole(roles) ==> actions == [Reply(NotAuthorizedToDelete)] && store.rows == old(store.rows)
      ensures HasPmRole(roles) ==>
        && store.rows == DeleteWhere(old(store.rows), threadId)
        && actions == [StoreDelete(threadId), Reply(TicketRemoved), Post(TicketPermanentlyRemoved), Archive(true)]
    {
      if !HasPmRole(roles) {
        return [Reply(NotAuthorizedToDelete)];
      }
      store.DeleteTicket(threadId);
      actions := [StoreDelete(threadId), Reply(TicketRemoved), Post(TicketPermanentlyRemoved), Archive(true)];
    }

    /** The `!export` command: only a privileged actor gets the report. */
    method ExportCommand(roles: seq<RoleId>) returns (actions: seq<Action>)
      requires Ready()
      ensures !HasPmRole(roles) ==> actions == [Reply(NotAuthorizedToExport)]
      ensures HasPmRole(roles) ==> actions == [AttachReport(Report(store.rows))]
      ensures HasPmRole(roles) ==> |actions[0].report| == |store.rows| + 1
    {
      if !HasPmRole(roles) {
        return [Reply(NotAuthorizedToExport)];
      }
      var report := store.ExportTicketPerformance();
      actions := [AttachReport(report)];
    }
  }

  /** Two tickets submitted one after the other: the counter advances by one
      each time, their threads get different names, and both are saved. */
  method TwoSubmissions(bot: Bot, t1: string, t2: string, author: string, id1: string, id2: string, now: Time)
    returns (name1: string, name2: string)
    requires bot.Ready()
    modifies bot, bot.store
    ensures bot.Ready() && bot.ticketCounter == old(bot.ticketCounter) + 2
    ensures |bot.store.rows| == |old(bot.store.rows)| + 2
    ensures name1 == ThreadName(old(bot.ticketCounter), t1) && name2 == ThreadName(old(bot.ticketCounter) + 1, t2)
    ensures name1 != name2
  {
    var counter := bot.ticketCounter;
    ghost var size := |bot.store.rows|;
    var a1 := bot.SubmitTicket(t1, "", author, id1, now);
    name1 := a1[0].name;
    assert name1 == ThreadName(counter, t1) && |bot.store.rows| == size + 1;
    var a2 := bot.SubmitTicket(t2, "", author, id2, now);
    name2 := a2[0].name;
    assert name2 == ThreadName(counter + 1, t2) && |bot.store.rows| == size + 2;
    ThreadNamesDistinct(counter, t1, counter + 1, t2);
  }
}
