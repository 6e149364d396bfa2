/** The session picker window: the list of sessions, its current row, the
    back label's pressed visual and the log of emitted signals. */
module Window {
  import opened Sessions
  import Icons
  import Layout

  /** The keys the window reacts to on release; every other key is OtherKey. */
  datatype Key = Escape | Return | Tab | Up | Down | OtherKey

  /** The object an event was delivered to: the back label or something else. */
  datatype Target = BackLabel | OtherObject

  datatype MouseKind = ButtonPress | ButtonRelease | OtherKind
  datatype MouseButton = LeftButton | OtherButton
  datatype MouseEvent = MouseEvent(kind: MouseKind, button: MouseButton)

  class SessionWindow {
    /** The key of the default session, given at construction. */
    const defaultSession: string
    /** The installation's image directory, under which badges live. */
    const imageDir: string

    /** The rows of the session model, in model order. */
    var entries: seq<Entry>
    /** The items of the list widget, one per inserted row. */
    var labels: seq<SessionLabel>
    /** The list's current row; -1 when the list has none. */
    var row: int
    /** Whether the back label shows its pressed (active) arrow. */
    var backPressed: bool
    /** Every signal emitted so far, oldest first. */
    var events: seq<Event>
    var windowHeight: int
    var listHeight: int

    ghost predicate Valid()
      reads this
    {
      && -1 <= row < |entries|
      && labels == Labels(imageDir, entries, defaultSession)
      && windowHeight == Layout.WindowHeight(|entries|)
      && listHeight == Layout.ListHeight(|entries|)
    }

    /** The list has a current row. */
    predicate HasCurrent()
      reads this
    {
      0 <= row < |entries|
    }

    /** Builds the window over the local sessions and lays it out. */
    constructor (session: string, imageDir: string, localSessions: seq<Entry>)
      ensures Valid()
      ensures defaultSession == session && this.imageDir == imageDir
      ensures entries == localSessions && row == -1 && !backPressed && events == []
    {
      defaultSession := session;
      this.imageDir := imageDir;
      entries := localSessions;
      labels := [];
      row := -1;
      backPressed := false;
      events := [];
      windowHeight := 0;
      listHeight := 0;
      new;
      InitUI();
    }

    /** Sizes the window for the current entries and rebuilds the back label
        and the list: the new list has no current row and one item per entry. */
    method InitUI()
      modifies this
      ensures Valid()
      ensures entries == old(entries) && events == old(events)
      ensures row == -1 && !backPressed
      ensures windowHeight == 60 * |entries| + 35
    {
      var sessionNum := |entries|;
      windowHeight := 55 + 40 * sessionNum + 20 * (sessionNum - 1);
      backPressed := false;
      labels := [];
      row := -1;
      listHeight := 40 * sessionNum + 20 * (sessionNum - 1);
      AddSessionLabels();
    }

    /** Inserts one item per model row into the (fresh, empty) list. */
    method AddSessionLabels()
      requires labels == []
      modifies this`labels
      ensures labels == Labels(imageDir, entries, defaultSession)
    {
      var i := 0;
      while i < |entries|
        invariant 0 <= i <= |entries|
        invariant labels == Labels(imageDir, entries[..i], defaultSession)
      {
        var sessionName := entries[i].name;
        var sessionKey := entries[i].key;
        var icon := Icons.SessionIcon(imageDir, sessionName);
        var text := if sessionKey == defaultSession then sessionName + DefaultSuffix else sessionName;
        LabelsStep(imageDir, entries, i, defaultSession);
        InsertAtEnd(labels, SessionLabel(icon, text));
        labels := labels[..i] + [SessionLabel(icon, text)] + labels[i..];
        i := i + 1;
      }
      assert entries[..i] == entries;
    }

    /** Emits the current row's key, then the back signal. */
    method SaveAndBack()
      requires Valid() && HasCurrent()
      modifies this`events
      ensures events == old(events) + [SessionSelected(entries[row].key), Back]
    {
      var currentRow := row;
      events := events + [SessionSelected(entries[currentRow].key)];
      events := events + [Back];
    }

    /** Escape and Return commit; Tab and Down move forward (from no current
        row to the first) and Up backward, both wrapping around; any other key
        does nothing. */
    method KeyReleaseEvent(key: Key)
      requires Valid()
      requires key.Escape? || key.Return? || key.Up? ==> HasCurrent()
      requires key.Tab? || key.Down? ==> |entries| > 0
      modifies this`row, this`events
      ensures Valid()
      ensures row == (if key.Tab? || key.Down? then NextRow(old(row), |entries|)
                      else if key.Up? then PrevRow(old(row), |entries|)
                      else old(row))
      ensures events == (if key.Escape? || key.Return?
                         then old(events) + [SessionSelected(entries[old(row)].key), Back]
                         else old(events))
    {
      if key == Escape || key == Return {
        SaveAndBack();
      } else if key == Tab {
        if row == |entries| - 1 {
          row := 0;
        } else {
          row := row + 1;
        }
      } else if key == Up {
        if row == 0 {
          row := |entries| - 1;
        } else {
          row := row - 1;
        }
      } else if key == Down {
        if row == |entries| - 1 {
          row := 0;
        } else {
          row := row + 1;
        }
      }
    }

    /** Mouse events on the back label: a left press shows the pressed arrow,
        a left release restores it and commits; both are consumed. Anything
        else is passed on (and not consumed). */
    method EventFilter(target: Target, ev: MouseEvent) returns (handled: bool)
      requires Valid()
      requires target.BackLabel? && ev.kind.ButtonRelease? && ev.button.LeftButton? ==> HasCurrent()
      modifies this`backPressed, this`events
      ensures Valid()
      ensures handled <==> target.BackLabel? && ev.button.LeftButton? && !ev.kind.OtherKind?
      ensures backPressed == (if handled then ev.kind.ButtonPress? else old(backPressed))
      ensures events == (if handled && ev.kind.ButtonRelease?
                         then old(events) + [SessionSelected(entries[row].key), Back]
                         else old(events))
    {
      if target == BackLabel {
        if ev.kind == ButtonPress {
          if ev.button == LeftButton {
            backPressed := true;
            return true;
          }
        }
        if ev.kind == ButtonRelease {
          if ev.button == LeftButton {
            backPressed := false;
            SaveAndBack();
            return true;
          }
        }
      }
      return false;
    }

    /** A click on list item i: the list makes i current, then commits. */
    method ItemClicked(i: int)
      requires Valid() && 0 <= i < |entries|
      modifies this`row, this`events
      ensures Valid()
      ensures row == i
      ensures events == old(events) + [SessionSelected(entries[i].key), Back]
    {
      row := i;
      SaveAndBack();
    }

    /** Replaces the session model and rebuilds the window; a null model
        (None) is ignored. */
    method SetSessionModel(model: Option<seq<Entry>>)
      requires Valid()
      modifies this
      ensures Valid()
      ensures model.None? ==>
        && entries == old(entries) && labels == old(labels) && row == old(row)
        && backPressed == old(backPressed) && events == old(events)
        && windowHeight == old(windowHeight) && listHeight == old(listHeight)
      ensures model.Some? ==>
        && entries == model.value && row == -1 && !backPressed && events == old(events)
        && labels == Labels(imageDir, model.value, defaultSession)
        && windowHeight == Layout.WindowHeight(|model.value|)
    {
      if model.None? {
        return;
      }
      entries := model.value;
      InitUI();
    }

    /** Highlights the row whose key is `session`; a missing key leaves the
        row as it was, and with repeated keys the last one wins. */
    method SetSession(session: string)
      requires Valid()
      modifies this`row
      ensures Valid()
      ensures row == ScanResult(entries, session, old(row))
    {
      ghost var start := row;
      var i := 0;
      while i < |entries|
        invariant 0 <= i <= |entries|
        invariant row == ScanResult(entries[..i], session, start)
      {
        var sessionKey := entries[i].key;
        ScanResultStep(entries, i, session, start);
        if sessionKey == session {
          row := i;
        }
        i := i + 1;
      }
      assert entries[..i] == entries;
    }
  }

  /** The two-session walk-through: Down from the default row wraps around
      (whatever the display names are). */
  method TwoSessionWrap(imageDir: string, gnome: string, kde: string)
  {
    var es := [Entry(gnome, "gnome"), Entry(kde, "kde")];
    var w := new SessionWindow("gnome", imageDir, es);
    assert es[0].key == "gnome" && es[1].key != "gnome";
    w.SetSession("gnome");
    assert w.row == 0;
    w.KeyReleaseEvent(Down);
    assert w.row == 1;
    w.KeyReleaseEvent(Down);
    assert w.row == 0;
  }

  /** Down in a freshly built window, which has no current row, highlights
      the first row. */
  method FreshWindowDown(imageDir: string, gnome: string, kde: string)
  {
    var es := [Entry(gnome, "gnome"), Entry(kde, "kde")];
    var w := new SessionWindow("gnome", imageDir, es);
    w.KeyReleaseEvent(Down);
    assert w.row == 0;
  }

  /** The two-session walk-through: Return on row 1 emits its key, then back. */
  method TwoSessionCommit(imageDir: string, gnome: string, kde: string)
  {
    var es := [Entry(gnome, "gnome"), Entry(kde, "kde")];
    var w := new SessionWindow("gnome", imageDir, es);
    w.SetSession("kde");
    assert w.row == 1;
    w.KeyReleaseEvent(Return);
    assert w.events == [SessionSelected("kde"), Back];
  }
}
