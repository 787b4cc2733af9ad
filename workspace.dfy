/**
 * The in-browser workspace of app.js: the `appState` object with its folder
 * list, its documents keyed by folder id and its event list, the commands
 * that change them in place, the per-day event list, the Sunday-first month
 * grid and the month navigation buttons.
 *
 * The clock (`new Date()`, `Date.now()`) is a parameter: ids and timestamps
 * are passed in by the caller. So is the user's answer to the confirmation
 * dialog and the text typed into the document editor. `currentFolder` and
 * `currentDocument` hold objects in the source; only their `id` is read by the
 * commands modelled here, so the model keeps the id.
 */
module Workspace {
  import opened Text
  import opened Gregorian

  datatype Folder = Folder(id: string, name: string, createdAt: int)

  datatype Document = Document(id: string, title: string, content: string, createdAt: int, updatedAt: int)

  datatype Event = Event(id: string, title: string, date: Date, description: string)

  /** The object that `initializeAppState` receives; an absent (falsy) field is None. */
  datatype SavedData = SavedData(
    folders: Option<seq<Folder>>,
    documents: Option<map<string, seq<Document>>>,
    events: Option<seq<Event>>)

  /** One cell of the Sunday-first grid: a blank filler or a numbered day with its CSS flags. */
  datatype DayCell = Blank | Day(day: int, isToday: bool, isSelected: bool, hasEvent: bool)

  const DefaultDocumentTitle: string := "Nuevo documento"
  const DefaultFolderName: string := "Mis Documentos"

  /** `Array.prototype.findIndex`: the first position whose element matches, or -1. */
  function FindIndex<T>(s: seq<T>, matches: T -> bool): (r: int)
    ensures -1 <= r < |s|
    ensures r == -1 <==> forall i :: 0 <= i < |s| ==> !matches(s[i])
    ensures r >= 0 ==> matches(s[r]) && forall i :: 0 <= i < r ==> !matches(s[i])
    decreases |s|
  {
    if s == [] then -1
    else if matches(s[0]) then 0
    else
      var r := FindIndex(s[1..], matches);
      if r == -1 then -1 else r + 1
  }

  function IndexOfDocument(docs: seq<Document>, id: string): int {
    FindIndex(docs, (d: Document) => d.id == id)
  }

  function IndexOfEvent(events: seq<Event>, id: string): int {
    FindIndex(events, (e: Event) => e.id == id)
  }

  /** No two events share an id. */
  ghost predicate DistinctIds(events: seq<Event>) {
    forall i, j :: 0 <= i < j < |events| ==> events[i].id != events[j].id
  }

  /**
   * Removing the event at index i (`splice(i, 1)`) removes exactly one copy
   * of it, and, when ids were distinct, keeps them distinct and leaves no
   * event with the removed id.
   */
  lemma RemoveAtFacts(events: seq<Event>, i: int)
    requires 0 <= i < |events|
    ensures var rest := events[..i] + events[i + 1..];
      && multiset(rest) == multiset(events) - multiset{events[i]}
      && (DistinctIds(events) ==> DistinctIds(rest) && forall e :: e in rest ==> e.id != events[i].id)
  {
    var rest := events[..i] + events[i + 1..];
    assert events == events[..i] + [events[i]] + events[i + 1..];
    assert forall k :: 0 <= k < |rest| ==> rest[k] == events[if k < i then k else k + 1];
  }

  /** The events shown under the selected day (the filter in `renderEvents`). */
  function EventsOnDay(events: seq<Event>, day: Date): (r: seq<Event>)
    ensures |r| <= |events|
    ensures forall e :: e in r <==> e in events && e.date == day
    decreases |events|
  {
    if events == [] then []
    else (if events[0].date == day then [events[0]] else []) + EventsOnDay(events[1..], day)
  }

  /** Filtering a concatenation filters each part and keeps them in order. */
  lemma {:induction false} EventsOnDayAppend(a: seq<Event>, b: seq<Event>, day: Date)
    ensures EventsOnDay(a + b, day) == EventsOnDay(a, day) + EventsOnDay(b, day)
    decreases |a|
  {
    if a == [] {
      assert a + b == b;
    } else {
      assert (a + b)[1..] == a[1..] + b;
      EventsOnDayAppend(a[1..], b, day);
    }
  }

  /** Each event of the day appears as often as in the full list; other events not at all. */
  lemma {:induction false} EventsOnDayCount(events: seq<Event>, day: Date, e: Event)
    ensures multiset(EventsOnDay(events, day))[e] == if e.date == day then multiset(events)[e] else 0
    decreases |events|
  {
    if events != [] {
      EventsOnDayCount(events[1..], day, e);
      assert events == [events[0]] + events[1..];
    }
  }

  /**
   * The `has-event` flag of a day cell: `events.some(...)` in `renderCalendar`,
   * which tries the events in order and stops at the first one on that day.
   */
  predicate HasEventOn(events: seq<Event>, day: Date): (r: bool)
    ensures r <==> exists e | e in events :: e.date == day
    decreases |events|
  {
    events != [] && (events[0].date == day || HasEventOn(events[1..], day))
  }

  /** A day is flagged exactly when its event list is not empty. */
  lemma HasEventIffListed(events: seq<Event>, day: Date)
    ensures HasEventOn(events, day) <==> EventsOnDay(events, day) != []
  {
    if HasEventOn(events, day) {
      var e :| e in events && e.date == day;
      assert e in EventsOnDay(events, day);
    }
  }

  class Store {
    var folders: seq<Folder>
    var documents: map<string, seq<Document>>
    var events: seq<Event>
    var currentFolder: Option<string>
    var currentDocument: Option<string>
    var selectedDate: Date

    ghost predicate Valid()
      reads this
    {
      0 <= selectedDate.month < 12
    }

    /** Every folder has a (possibly empty) document list. */
    ghost predicate FoldersHaveLists()
      reads this
    {
      forall f :: f in folders ==> f.id in documents
    }

    ghost predicate FolderIdsUnique()
      reads this
    {
      forall i, j :: 0 <= i < j < |folders| ==> folders[i].id != folders[j].id
    }

    ghost predicate EventIdsUnique()
      reads this
    {
      DistinctIds(events)
    }

    /** The initial `appState`: empty containers, nothing open, today selected. */
    constructor (today: Date)
      requires 0 <= today.month < 12
      ensures Valid() && FoldersHaveLists() && FolderIdsUnique() && EventIdsUnique()
      ensures folders == [] && documents == map[] && events == []
      ensures currentFolder == None && currentDocument == None && selectedDate == today
    {
      folders := [];
      documents := map[];
      events := [];
      currentFolder := None;
      currentDocument := None;
      selectedDate := today;
    }

    /** `createFolder`: append the folder and give it an empty document list. */
    method CreateFolder(name: string, id: string, now: int)
      requires Valid()
      modifies this
      ensures Valid()
      ensures folders == old(folders) + [Folder(id, name, now)]
      ensures documents == old(documents)[id := []]
      ensures events == old(events) && selectedDate == old(selectedDate)
      ensures currentFolder == old(currentFolder) && currentDocument == old(currentDocument)
      ensures old(FoldersHaveLists()) ==> FoldersHaveLists()
      ensures old(FolderIdsUnique()) && (forall f :: f in old(folders) ==> f.id != id) ==> FolderIdsUnique()
    {
      folders := folders + [Folder(id, name, now)];
      documents := documents[id := []];
    }

    /**
     * `createDocument`: append a blank document to the folder's list and
     * return it. The title defaults to "Nuevo documento" when none is given.
     * When the folder has no list the source's `push` throws; the model
     * returns None and changes nothing.
     */
    method CreateDocument(folderId: string, title: Option<string>, id: string, now: int)
      returns (doc: Option<Document>)
      requires Valid()
      modifies this
      ensures Valid()
      ensures folders == old(folders) && events == old(events) && selectedDate == old(selectedDate)
      ensures currentFolder == old(currentFolder) && currentDocument == old(currentDocument)
      ensures folderId !in old(documents) ==> doc == None && documents == old(documents)
      ensures folderId in old(documents) ==>
        && doc == Some(Document(id, title.GetOr(DefaultDocumentTitle), "", now, now))
        && documents == old(documents)[folderId := old(documents)[folderId] + [doc.value]]
      ensures documents.Keys == old(documents).Keys
      ensures old(FoldersHaveLists()) ==> FoldersHaveLists()
    {
      if folderId !in documents {
        doc := None;
        return;
      }
      var d := Document(id, title.GetOr(DefaultDocumentTitle), "", now, now);
      documents := documents[folderId := documents[folderId] + [d]];
      doc := Some(d);
    }

    /** A click on a folder in the sidebar makes it the current folder. */
    method SelectFolder(folderId: string)
      requires Valid()
      modifies this`currentFolder
      ensures Valid() && currentFolder == Some(folderId)
    {
      currentFolder := Some(folderId);
    }

    /** `openDocument`: the document becomes the one being edited. */
    method OpenDocument(documentId: string)
      requires Valid()
      modifies this`currentDocument
      ensures Valid() && currentDocument == Some(documentId)
    {
      currentDocument := Some(documentId);
    }

    /**
     * The "new document" button: create a document with the default title in
     * the current folder and open it. Without a current folder nothing
     * happens; when the folder has no list the creation throws and nothing
     * is opened.
     */
    method AddDocument(id: string, now: int) returns (doc: Option<Document>)
      requires Valid()
      modifies this
      ensures Valid()
      ensures folders == old(folders) && events == old(events) && selectedDate == old(selectedDate)
      ensures currentFolder == old(currentFolder)
      ensures old(currentFolder).None? || old(currentFolder).value !in old(documents) ==>
        doc == None && documents == old(documents) && currentDocument == old(currentDocument)
      ensures old(currentFolder).Some? && old(currentFolder).value in old(documents) ==>
        var f := old(currentFolder).value;
        && doc == Some(Document(id, DefaultDocumentTitle, "", now, now))
        && documents == old(documents)[f := old(documents)[f] + [doc.value]]
        && currentDocument == Some(id)
    {
      if currentFolder.None? {
        doc := None;
        return;
      }
      doc := CreateDocument(currentFolder.value, None, id, now);
      if doc.Some? {
        OpenDocument(doc.value.id);
      }
    }

    /** Whether `saveDocument` finds the entry it is to update. */
    ghost predicate CanSave()
      reads this
    {
      && currentDocument.Some?
      && currentFolder.Some?
      && currentFolder.value in documents
      && IndexOfDocument(documents[currentFolder.value], currentDocument.value) != -1
    }

    /**
     * `saveDocument`: with the editor's title and content and the clock,
     * update the first entry of the current folder's list whose id is the
     * current document's. With no current document or folder, a folder without
     * a list (where the source throws) or an id not in the list, nothing
     * changes.
     */
    method SaveDocument(title: string, content: string, now: int)
      requires Valid()
      modifies this`documents
      ensures Valid()
      ensures documents.Keys == old(documents).Keys
      ensures !old(CanSave()) ==> documents == old(documents)
      ensures old(CanSave()) ==>
        var f := currentFolder.value;
        var i := IndexOfDocument(old(documents)[f], currentDocument.value);
        && |documents[f]| == |old(documents)[f]|
        && documents[f][i] == old(documents)[f][i].(title := title, content := content, updatedAt := now)
        && (forall j :: 0 <= j < |documents[f]| && j != i ==> documents[f][j] == old(documents)[f][j])
        && (forall g :: g in documents && g != f ==> documents[g] == old(documents)[g])
      ensures old(FoldersHaveLists()) ==> FoldersHaveLists()
    {
      if currentDocument.None? || currentFolder.None? {
        return;
      }
      var folderId := currentFolder.value;
      if folderId !in documents {
        return;
      }
      var docIndex := IndexOfDocument(documents[folderId], currentDocument.value);
      if docIndex == -1 {
        return;
      }
      var docs := documents[folderId];
      var updated := docs[docIndex].(title := title, content := content, updatedAt := now);
      documents := documents[folderId := docs[docIndex := updated]];
    }

    /**
     * `createEvent`: append the event. The events listed for its day gain it
     * at the end; every other day's list is unchanged.
     */
    method CreateEvent(title: string, date: Date, description: string, id: string)
      requires Valid()
      modifies this`events
      ensures Valid()
      ensures events == old(events) + [Event(id, title, date, description)]
      ensures EventsOnDay(events, date) == EventsOnDay(old(events), date) + [Event(id, title, date, description)]
      ensures forall d :: d != date ==> EventsOnDay(events, d) == EventsOnDay(old(events), d)
      ensures old(EventIdsUnique()) && (forall e :: e in old(events) ==> e.id != id) ==> EventIdsUnique()
    {
      var e := Event(id, title, date, description);
      ghost var before := events;
      events := events + [e];
      EventsOnDayAppend(before, [e], date);
      forall d | d != date
        ensures EventsOnDay(events, d) == EventsOnDay(before, d)
      {
        EventsOnDayAppend(before, [e], d);
        assert EventsOnDay([e], d) == [];
      }
    }

    /**
     * `deleteEvent`: when the user confirms, remove the first event with the
     * id; the others keep their order. A declined confirmation or an unknown id
     * leaves the list as it was.
     */
    method DeleteEvent(eventId: string, confirmed: bool)
      requires Valid()
      modifies this`events
      ensures Valid()
      ensures var i := IndexOfEvent(old(events), eventId);
        if !confirmed || i == -1 then events == old(events)
        else
          && old(events)[i].id == eventId
          && events == old(events)[..i] + old(events)[i + 1..]
          && multiset(events) == multiset(old(events)) - multiset{old(events)[i]}
      ensures old(EventIdsUnique()) ==> EventIdsUnique()
      ensures old(EventIdsUnique()) && confirmed ==> forall e :: e in events ==> e.id != eventId
    {
      if !confirmed {
        return;
      }
      var eventIndex := IndexOfEvent(events, eventId);
      if eventIndex == -1 {
        return;
      }
      RemoveAtFacts(events, eventIndex);
      events := events[..eventIndex] + events[eventIndex + 1..];
    }

    /**
     * `initializeAppState`: replace the three containers with the loaded ones
     * (absent fields become empty) and open the first folder when there is one.
     * The current document and the selected date are kept.
     */
    method InitializeAppState(data: SavedData)
      requires Valid()
      modifies this
      ensures Valid()
      ensures folders == data.folders.GetOr([])
      ensures documents == data.documents.GetOr(map[])
      ensures events == data.events.GetOr([])
      ensures currentFolder == if |folders| > 0 then Some(folders[0].id) else old(currentFolder)
      ensures currentDocument == old(currentDocument) && selectedDate == old(selectedDate)
    {
      folders := data.folders.GetOr([]);
      documents := data.documents.GetOr(map[]);
      events := data.events.GetOr([]);
      if |folders| > 0 {
        currentFolder := Some(folders[0].id);
      }
    }

    /**
     * The choice in `loadData`: the server's data when it sent any, otherwise
     * the browser's saved copy, otherwise a new folder "Mis Documentos". A
     * failed request reaches the same fallback as an empty answer, so both are
     * None in `remote`.
     */
    method LoadData(remote: Option<SavedData>, local: Option<SavedData>, id: string, now: int)
      requires Valid()
      modifies this
      ensures Valid()
      ensures selectedDate == old(selectedDate) && currentDocument == old(currentDocument)
      ensures remote.Some? ==>
        && folders == remote.value.folders.GetOr([]) && events == remote.value.events.GetOr([])
        && documents == remote.value.documents.GetOr(map[])
        && currentFolder == if |folders| > 0 then Some(folders[0].id) else old(currentFolder)
      ensures remote.None? && local.Some? ==>
        && folders == local.value.folders.GetOr([]) && events == local.value.events.GetOr([])
        && documents == local.value.documents.GetOr(map[])
        && currentFolder == if |folders| > 0 then Some(folders[0].id) else old(currentFolder)
      ensures remote.None? && local.None? ==>
        && folders == old(folders) + [Folder(id, DefaultFolderName, now)]
        && documents == old(documents)[id := []]
        && events == old(events)
        && currentFolder == old(currentFolder)
    {
      if remote.Some? {
        InitializeAppState(remote.value);
      } else if local.Some? {
        InitializeAppState(local.value);
      } else {
        CreateFolder(DefaultFolderName, id, now);
      }
    }

    /** A click on day i of the shown month selects it. */
    method SelectDay(i: int)
      requires Valid() && 1 <= i <= DaysInMonth(selectedDate.year, selectedDate.month)
      modifies this`selectedDate
      ensures Valid() && ValidDate(selectedDate)
      ensures selectedDate == Date(old(selectedDate).year, old(selectedDate).month, i)
    {
      selectedDate := Date(selectedDate.year, selectedDate.month, i);
    }

    /** The previous-month button: select the first of the month before. */
    method PrevMonth()
      requires Valid()
      modifies this`selectedDate
      ensures Valid() && ValidDate(selectedDate) && selectedDate.day == 1
      ensures MonthIndex(selectedDate.year, selectedDate.month) == MonthIndex(old(selectedDate).year, old(selectedDate).month) - 1
    {
      selectedDate := MonthStart(selectedDate.year, selectedDate.month - 1);
    }

    /** The next-month button: select the first of the month after. */
    method NextMonth()
      requires Valid()
      modifies this`selectedDate
      ensures Valid() && ValidDate(selectedDate) && selectedDate.day == 1
      ensures MonthIndex(selectedDate.year, selectedDate.month) == MonthIndex(old(selectedDate).year, old(selectedDate).month) + 1
    {
      selectedDate := MonthStart(selectedDate.year, selectedDate.month + 1);
    }

    /**
     * The day cells of `renderCalendar`: one blank per weekday before the
     * first of the selected month (weeks start on Sunday), then days
     * 1..N of the month with their today, selected and has-event flags.
     * Every numbered day lands in the column of its weekday.
     */
    method RenderCalendar(today: Date) returns (cells: seq<DayCell>)
      requires Valid()
      ensures var y, m := selectedDate.year, selectedDate.month;
        var start := Weekday(y, m, 1);
        && |cells| == start + DaysInMonth(y, m)
        && (forall k :: 0 <= k < start ==> cells[k] == Blank)
        && (forall k :: start <= k < |cells| ==>
              var d := Date(y, m, k - start + 1);
              cells[k] == Day(d.day, today == d, selectedDate == d, HasEventOn(events, d)))
        && (forall k :: start <= k < |cells| ==> k % 7 == Weekday(y, m, k - start + 1))
    {
      var year, month := selectedDate.year, selectedDate.month;
      var startingDay := Weekday(year, month, 1);
      var totalDays := DaysInMonth(year, month);
      cells := [];
      var i := 0;
      while i < startingDay
        invariant 0 <= i <= startingDay
        invariant |cells| == i
        invariant forall k :: 0 <= k < i ==> cells[k] == Blank
      {
        cells := cells + [Blank];
        i := i + 1;
      }
      i := 1;
      while i <= totalDays
        invariant 1 <= i <= totalDays + 1
        invariant |cells| == startingDay + i - 1
        invariant forall k :: 0 <= k < startingDay ==> cells[k] == Blank
        invariant forall k :: startingDay <= k < |cells| ==>
          var d := Date(year, month, k - startingDay + 1);
          cells[k] == Day(d.day, today == d, selectedDate == d, HasEventOn(events, d))
      {
        var d := Date(year, month, i);
        cells := cells + [Day(i, today == d, selectedDate == d, HasEventOn(events, d))];
        i := i + 1;
      }
      forall k | startingDay <= k < |cells|
        ensures k % 7 == Weekday(year, month, k - startingDay + 1)
      {
        WeekdayOfDay(year, month, k - startingDay + 1);
      }
    }
  }

  /**
   * A new document followed by a save: when the id is new to the folder, the
   * save lands on the document just created, which then holds the edited
   * title and content and the save time, and keeps its creation time.
   */
  method AddThenSave(store: Store, id: string, created: int, title: string, content: string, saved: int)
    requires store.Valid() && store.currentFolder.Some? && store.currentFolder.value in store.documents
    requires forall d :: d in store.documents[store.currentFolder.value] ==> d.id != id
    modifies store
    ensures store.Valid()
    ensures store.currentFolder == old(store.currentFolder) && store.currentFolder.value in store.documents
    ensures var docs := store.documents[store.currentFolder.value];
      |docs| > 0 && docs[|docs| - 1] == Document(id, title, content, created, saved)
  {
    var f := store.currentFolder.value;
    var doc := store.AddDocument(id, created);
    ghost var docs := store.documents[f];
    assert docs[|docs| - 1].id == id;
    assert forall j :: 0 <= j < |docs| - 1 ==> docs[j].id != id by {
      assert forall j :: 0 <= j < |docs| - 1 ==> docs[j] in old(store.documents)[f];
    }
    assert IndexOfDocument(docs, id) == |docs| - 1;
    store.SaveDocument(title, content, saved);
  }
}
