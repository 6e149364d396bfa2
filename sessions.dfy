/** Session entries, emitted events and the value-level rules of the session
    picker: wrap-around navigation, lookup by key and the row labels. */
module Sessions {
  import Icons

  datatype Option<+T> = None | Some(value: T)

  /** One row of the session model: the display name (Qt::DisplayRole) and the
      stable key (Qt::UserRole). */
  datatype Entry = Entry(name: string, key: string)

  /** The two signals the picker emits. */
  datatype Event = SessionSelected(key: string) | Back

  /** What one list item shows: an icon path and a text. */
  datatype SessionLabel = SessionLabel(icon: string, text: string)

  /** Marker appended to the label of the default session (untranslated). */
  const DefaultSuffix: string := " (Default)"

  predicate KeysDistinct(es: seq<Entry>)
  {
    forall i, j :: 0 <= i < j < |es| ==> es[i].key != es[j].key
  }

  // ---------------------------------------------------------------------------
  // Navigation

  /** The row after Tab or Down: the last row wraps to the first, and with
      no current row (-1) the first row becomes current. */
  function NextRow(row: int, n: int): (r: int)
    requires 0 < n && -1 <= row < n
    ensures 0 <= r < n
    ensures row == -1 ==> r == 0
  {
    if row == n - 1 then 0 else row + 1
  }

  /** The row after Up: the first row wraps to the last. */
  function PrevRow(row: int, n: int): (r: int)
    requires 0 <= row < n
    ensures 0 <= r < n
  {
    if row == 0 then n - 1 else row - 1
  }

  /** Down (or Tab) is a step forward modulo n, and Up a step backward. */
  lemma NavigationIsModular(row: int, n: int)
    requires 0 <= row < n
    ensures NextRow(row, n) == (row + 1) % n
    ensures PrevRow(row, n) == (row - 1 + n) % n
  {
    if row == n - 1 {
      ModUnique(row + 1, n, 1, 0);
    } else {
      ModUnique(row + 1, n, 0, row + 1);
    }
    if row == 0 {
      ModUnique(row - 1 + n, n, 0, n - 1);
    } else {
      ModUnique(row - 1 + n, n, 1, row - 1);
    }
  }

  /** Up undoes Down (or Tab), and Down undoes Up. */
  lemma NavigationInverse(row: int, n: int)
    requires 0 <= row < n
    ensures PrevRow(NextRow(row, n), n) == row
    ensures NextRow(PrevRow(row, n), n) == row
  {
  }

  /** The row after k presses of Down. */
  function Forward(row: int, n: int, k: nat): (r: int)
    requires 0 <= row < n
    ensures 0 <= r < n
  {
    if k == 0 then row else NextRow(Forward(row, n, k - 1), n)
  }

  /** The row after k presses of Up. */
  function Backward(row: int, n: int, k: nat): (r: int)
    requires 0 <= row < n
    ensures 0 <= r < n
    decreases k
  {
    if k == 0 then row else Backward(PrevRow(row, n), n, k - 1)
  }

  lemma MulAtLeast(d: int, n: int)
    requires d >= 1 && n > 0
    ensures d * n >= n
    decreases d
  {
    if d > 1 {
      MulAtLeast(d - 1, n);
      assert d * n == (d - 1) * n + n;
    }
  }

  /** Division and remainder are determined by a == q * n + r, 0 <= r < n. */
  lemma ModUnique(a: int, n: int, q: int, r: int)
    requires 0 < n && 0 <= r < n && a == q * n + r
    ensures a % n == r && a / n == q
  {
    var q', r' := a / n, a % n;
    assert a == q' * n + r';
    var d := q - q';
    assert d * n == q * n - q' * n;
    assert d * n == r' - r;
    if d > 0 {
      MulAtLeast(d, n);
    } else if d < 0 {
      MulAtLeast(-d, n);
    }
  }

  /** Adding a multiple of n does not change the remainder. */
  lemma ModAddMultiple(b: int, q: int, n: int)
    requires 0 < n
    ensures (q * n + b) % n == b % n
  {
    var p, s := b / n, b % n;
    assert b == p * n + s;
    assert q * n + b == (q + p) * n + s;
    ModUnique(q * n + b, n, q + p, s);
  }

  lemma ModSucc(a: int, n: int)
    requires 0 < n
    ensures (a % n + 1) % n == (a + 1) % n
  {
    var q, r := a / n, a % n;
    assert a == q * n + r;
    if r + 1 < n {
      ModUnique(a + 1, n, q, r + 1);
      ModUnique(r + 1, n, 0, r + 1);
    } else {
      assert a + 1 == (q + 1) * n + 0;
      ModUnique(a + 1, n, q + 1, 0);
      ModUnique(n, n, 1, 0);
    }
  }

  lemma ModSub(a: int, n: int, k: int)
    requires 0 < n
    ensures (a % n - k) % n == (a - k) % n
  {
    var q := a / n;
    assert a == q * n + a % n;
    assert a - k == q * n + (a % n - k);
    ModAddMultiple(a % n - k, q, n);
  }

  /** k presses of Down move the highlight k rows forward, modulo n. */
  lemma {:induction false} ForwardIsShift(row: int, n: int, k: nat)
    requires 0 <= row < n
    ensures Forward(row, n, k) == (row + k) % n
  {
    if k > 0 {
      var x := Forward(row, n, k - 1);
      ForwardIsShift(row, n, k - 1);
      assert x == (row + (k - 1)) % n;
      NavigationIsModular(x, n);
      assert Forward(row, n, k) == (x + 1) % n;
      ModSucc(row + (k - 1), n);
    }
  }

  /** k presses of Up move the highlight k rows backward, modulo n. */
  lemma {:induction false} BackwardIsShift(row: int, n: int, k: nat)
    requires 0 <= row < n
    ensures Backward(row, n, k) == (row - k) % n
    decreases k
  {
    if k > 0 {
      var p := PrevRow(row, n);
      NavigationIsModular(row, n);
      assert p == (row - 1 + n) % n;
      BackwardIsShift(p, n, k - 1);
      ModSub(row - 1 + n, n, k - 1);
      assert row - 1 + n - (k - 1) == 1 * n + (row - k);
      ModAddMultiple(row - k, 1, n);
    }
  }

  /** n presses of Down return the highlight to where it started. */
  lemma ForwardFullCycle(row: int, n: int)
    requires 0 <= row < n
    ensures Forward(row, n, n) == row
  {
    ForwardIsShift(row, n, n);
    ModUnique(row + n, n, 1, row);
  }

  /** n presses of Up return the highlight to where it started. */
  lemma BackwardFullCycle(row: int, n: int)
    requires 0 <= row < n
    ensures Backward(row, n, n) == row
  {
    BackwardIsShift(row, n, n);
    ModUnique(row - n, n, -1, row);
  }

  /** k presses of Up undo k presses of Down. */
  lemma {:induction false} BackwardUndoesForward(row: int, n: int, k: nat)
    requires 0 <= row < n
    ensures Backward(Forward(row, n, k), n, k) == row
  {
    if k > 0 {
      var f := Forward(row, n, k - 1);
      NavigationInverse(f, n);
      BackwardUndoesForward(row, n, k - 1);
    }
  }

  // ---------------------------------------------------------------------------
  // Selecting a row by key

  /** The index the key scan lands on: every match overwrites the previous
      one, so it is the LAST index whose key equals `k`, or None. */
  function LastIndexOf(es: seq<Entry>, k: string): (r: Option<nat>)
    ensures r.None? <==> forall i :: 0 <= i < |es| ==> es[i].key != k
    ensures r.Some? ==> r.value < |es| && es[r.value].key == k
    ensures r.Some? ==> forall j :: r.value < j < |es| ==> es[j].key != k
  {
    if |es| == 0 then None
    else if es[|es| - 1].key == k then Some(|es| - 1)
    else LastIndexOf(es[..|es| - 1], k)
  }

  /** With distinct keys the scan finds the one entry carrying the key. */
  lemma LastIndexOfDistinct(es: seq<Entry>, k: string, i: nat)
    requires KeysDistinct(es)
    requires i < |es| && es[i].key == k
    ensures LastIndexOf(es, k) == Some(i)
  {
  }

  /** Scanning one more entry: a match moves the result to it. */
  lemma LastIndexOfSnoc(es: seq<Entry>, e: Entry, k: string)
    ensures LastIndexOf(es + [e], k) == if e.key == k then Some(|es|) else LastIndexOf(es, k)
  {
    assert (es + [e])[..|es|] == es;
  }

  /** The row after scanning `es` for key `k`, starting from row `start`:
      the last match, or `start` when nothing matches. */
  function ScanResult(es: seq<Entry>, k: string, start: int): (r: int)
    ensures -1 <= start < |es| ==> -1 <= r < |es|
  {
    match LastIndexOf(es, k)
    case None => start
    case Some(i) => i
  }

  /** One more step of the scan: a match at row i moves the result to i. */
  lemma ScanResultStep(es: seq<Entry>, i: nat, k: string, start: int)
    requires i < |es|
    ensures ScanResult(es[..i + 1], k, start) == if es[i].key == k then i else ScanResult(es[..i], k, start)
  {
    assert es[..i + 1] == es[..i] + [es[i]];
    LastIndexOfSnoc(es[..i], es[i], k);
  }

  // ---------------------------------------------------------------------------
  // Labels

  /** The label built for one entry. */
  function MakeLabel(imageDir: string, e: Entry, defaultKey: string): SessionLabel
  {
    SessionLabel(Icons.SessionIcon(imageDir, e.name),
                 if e.key == defaultKey then e.name + DefaultSuffix else e.name)
  }

  /** The labels of the list, one per entry, in model order. */
  function Labels(imageDir: string, es: seq<Entry>, defaultKey: string): seq<SessionLabel>
  {
    seq(|es|, i requires 0 <= i < |es| => MakeLabel(imageDir, es[i], defaultKey))
  }

  /** Building one more label appends it to the labels built so far. */
  lemma LabelsStep(imageDir: string, es: seq<Entry>, i: nat, defaultKey: string)
    requires i < |es|
    ensures Labels(imageDir, es[..i + 1], defaultKey)
         == Labels(imageDir, es[..i], defaultKey) + [MakeLabel(imageDir, es[i], defaultKey)]
  {
    var a := Labels(imageDir, es[..i + 1], defaultKey);
    var b := Labels(imageDir, es[..i], defaultKey) + [MakeLabel(imageDir, es[i], defaultKey)];
    assert |a| == |b|;
    forall j | 0 <= j < |a| ensures a[j] == b[j] {
      if j < i {
        assert es[..i + 1][j] == es[..i][j];
      }
    }
  }

  /** Inserting at the position one past the last item appends. */
  lemma InsertAtEnd<T>(s: seq<T>, x: T)
    ensures s[..|s|] + [x] + s[|s|..] == s + [x]
  {
  }

  /** A label carries the default marker when its text is the name plus the suffix. */
  predicate IsMarked(l: SessionLabel, e: Entry)
  {
    l.text == e.name + DefaultSuffix
  }

  /** A label starts with the entry's name, and is marked exactly when the
      entry's key is the default key; otherwise its text is the bare name. */
  lemma LabelText(imageDir: string, e: Entry, defaultKey: string)
    ensures var l := MakeLabel(imageDir, e, defaultKey);
      && |e.name| <= |l.text| && l.text[..|e.name|] == e.name
      && (IsMarked(l, e) <==> e.key == defaultKey)
      && (e.key != defaultKey ==> l.text == e.name)
      && l.icon == Icons.SessionIcon(imageDir, e.name)
  {
  }

  /** In the built list, row i is marked exactly when entry i has the default
      key; with distinct keys at most one row is marked, and one is marked
      exactly when some entry has the default key. */
  lemma DefaultMarkedOnce(imageDir: string, es: seq<Entry>, defaultKey: string)
    ensures var ls := Labels(imageDir, es, defaultKey);
      forall i :: 0 <= i < |es| ==> (IsMarked(ls[i], es[i]) <==> es[i].key == defaultKey)
    ensures var ls := Labels(imageDir, es, defaultKey);
      KeysDistinct(es) ==>
        forall i, j :: 0 <= i < |es| && 0 <= j < |es| && IsMarked(ls[i], es[i]) && IsMarked(ls[j], es[j]) ==> i == j
    ensures var ls := Labels(imageDir, es, defaultKey);
      (exists i :: 0 <= i < |es| && IsMarked(ls[i], es[i])) <==> (exists i :: 0 <= i < |es| && es[i].key == defaultKey)
  {
    var ls := Labels(imageDir, es, defaultKey);
    forall i | 0 <= i < |es|
      ensures IsMarked(ls[i], es[i]) <==> es[i].key == defaultKey
    {
      LabelText(imageDir, es[i], defaultKey);
    }
  }
}
