/**
 * Collaborative cursors: every user's caret and selection follow the insertions and deletions the
 * others make. A document is named by its tenant and identifier together.
 */
module CursorManager {
  import opened OperationalTransform
  import opened Options

  datatype Range = Range(start: int, end: int)

  datatype CursorPosition = CursorPosition(userId: string, displayName: string, color: string,
                                           position: nat, selection: Option<Range>, updatedAt: int)

  type Cursors = map<string, CursorPosition>

  // ---- The caret ----

  function PointAfterInsertion(p: nat, at: nat, length: nat): nat {
    if p >= at then p + length else p
  }

  // ---- The selection, branch by branch ----

  function RangeAfterInsertion(r: Range, at: nat, length: nat): Range {
    if r.start >= at then Range(r.start + length, r.end + length)
    else if r.end > at then Range(r.start, r.end + length)
    else r
  }

  // A selection may be backward (its end before its start): then a deletion can leave every branch untaken.
  function RangeAfterDeletion(r: Range, at: nat, length: nat): Range {
    var deleteEnd := at + length;
    if r.start >= deleteEnd then Range(r.start - length, r.end - length)
    else if r.end <= at then r
    else if r.start < at && r.end > deleteEnd then Range(r.start, r.end - length)
    else if r.start < at && r.end <= deleteEnd then Range(r.start, at)
    else if r.start >= at && r.end > deleteEnd then Range(at, r.end - length)
    else if r.start >= at && r.end <= deleteEnd then Range(at, at)
    else r
  }

  function AfterInsertion(c: CursorPosition, at: nat, length: nat): CursorPosition {
    c.(position := PointAfterInsertion(c.position, at, length),
       selection := if c.selection.Some? then Some(RangeAfterInsertion(c.selection.value, at, length)) else None)
  }

  function AfterDeletion(c: CursorPosition, at: nat, length: nat): CursorPosition {
    c.(position := PastDeletion(c.position, at, length),
       selection := if c.selection.Some? then Some(RangeAfterDeletion(c.selection.value, at, length)) else None)
  }

  // No name, or an empty one, excludes nobody.
  predicate Excluded(user: string, exclude: Option<string>) {
    exclude.Some? && exclude.value != "" && user == exclude.value
  }

  ghost function AllAfterInsertion(cursors: Cursors, at: nat, length: nat, exclude: Option<string>): Cursors {
    map u | u in cursors :: if Excluded(u, exclude) then cursors[u] else AfterInsertion(cursors[u], at, length)
  }

  ghost function AllAfterDeletion(cursors: Cursors, at: nat, length: nat, exclude: Option<string>): Cursors {
    map u | u in cursors :: if Excluded(u, exclude) then cursors[u] else AfterDeletion(cursors[u], at, length)
  }

  class CursorManager {
    var cursorsByDocument: map<string, Cursors>

    constructor ()
      ensures cursorsByDocument == map[]
    {
      cursorsByDocument := map[];
    }

    // A missing or empty name or colour falls back to the user's earlier one, then to a default.
    method UpdateCursorPosition(key: string, userId: string, position: nat, selection: Option<Range>,
                                displayName: Option<string>, color: Option<string>, autoColor: string, now: int)
      returns (updated: CursorPosition)
      modifies this
      ensures updated.userId == userId && updated.position == position && updated.selection == selection
      ensures updated.updatedAt == now
      ensures var had := key in old(cursorsByDocument) && userId in old(cursorsByDocument)[key];
              updated.displayName == (if displayName.Some? && displayName.value != "" then displayName.value
                                      else if had && old(cursorsByDocument)[key][userId].displayName != ""
                                           then old(cursorsByDocument)[key][userId].displayName
                                      else "Unknown User")
      ensures var had := key in old(cursorsByDocument) && userId in old(cursorsByDocument)[key];
              updated.color == (if color.Some? && color.value != "" then color.value
                                else if had && old(cursorsByDocument)[key][userId].color != ""
                                     then old(cursorsByDocument)[key][userId].color
                                else autoColor)
      ensures var others := if key in old(cursorsByDocument) then old(cursorsByDocument)[key] else map[];
              cursorsByDocument == old(cursorsByDocument)[key := others[userId := updated]]
    {
      var documentCursors := if key in cursorsByDocument then cursorsByDocument[key] else map[];
      var known := userId in documentCursors;
      var name := "Unknown User";
      if displayName.Some? && displayName.value != "" {
        name := displayName.value;
      } else if known && documentCursors[userId].displayName != "" {
        name := documentCursors[userId].displayName;
      }
      var chosenColor := autoColor;
      if color.Some? && color.value != "" {
        chosenColor := color.value;
      } else if known && documentCursors[userId].color != "" {
        chosenColor := documentCursors[userId].color;
      }
      updated := CursorPosition(userId, name, chosenColor, position, selection, now);
      cursorsByDocument := cursorsByDocument[key := documentCursors[userId := updated]];
    }

    static method CursorAfterInsertion(cursor: CursorPosition, insertPosition: nat, insertLength: nat)
      returns (adjusted: CursorPosition)
      ensures adjusted == AfterInsertion(cursor, insertPosition, insertLength)
    {
      var newPosition, newSelection := cursor.position, cursor.selection;
      if cursor.position >= insertPosition {
        newPosition := cursor.position + insertLength;
      }
      if cursor.selection.Some? {
        var r := cursor.selection.value;
        if r.start >= insertPosition {
          newSelection := Some(Range(r.start + insertLength, r.end + insertLength));
        } else if r.end > insertPosition {
          newSelection := Some(Range(r.start, r.end + insertLength));
        }
      }
      adjusted := cursor.(position := newPosition, selection := newSelection);
    }

    method AdjustCursorsForInsertion(key: string, insertPosition: nat, insertLength: nat, exclude: Option<string>)
      modifies this
      ensures key !in old(cursorsByDocument) ==> cursorsByDocument == old(cursorsByDocument)
      ensures key in old(cursorsByDocument) ==>
                cursorsByDocument == old(cursorsByDocument)[
                  key := AllAfterInsertion(old(cursorsByDocument)[key], insertPosition, insertLength, exclude)]
    {
      if key !in cursorsByDocument {
        return;
      }
      ghost var start := cursorsByDocument[key];
      ghost var goal := AllAfterInsertion(start, insertPosition, insertLength, exclude);
      var documentCursors := cursorsByDocument[key];
      var users := documentCursors.Keys;
      while users != {}
        invariant users <= start.Keys == documentCursors.Keys
        invariant forall u :: u in start ==>
                    documentCursors[u] == if u in users then start[u] else goal[u]
        modifies {}
        decreases |users|
      {
        var userId :| userId in users;
        users := users - {userId};
        if !Excluded(userId, exclude) {
          var cursor := CursorAfterInsertion(documentCursors[userId], insertPosition, insertLength);
          documentCursors := documentCursors[userId := cursor];
        }
      }
      assert documentCursors == goal;
      cursorsByDocument := cursorsByDocument[key := documentCursors];
    }

    static method CursorAfterDeletion(cursor: CursorPosition, deletePosition: nat, deleteLength: nat)
      returns (adjusted: CursorPosition)
      ensures adjusted == AfterDeletion(cursor, deletePosition, deleteLength)
    {
      var deleteEnd := deletePosition + deleteLength;
      var newPosition, newSelection := cursor.position, cursor.selection;
      if cursor.position >= deleteEnd {
        newPosition := cursor.position - deleteLength;
      } else if cursor.position > deletePosition {
        newPosition := deletePosition;
      }
      if cursor.selection.Some? {
        var r := cursor.selection.value;
        if r.start >= deleteEnd {
          newSelection := Some(Range(r.start - deleteLength, r.end - deleteLength));
        } else if r.end <= deletePosition {
          newSelection := cursor.selection;
        } else if r.start < deletePosition && r.end > deleteEnd {
          newSelection := Some(Range(r.start, r.end - deleteLength));
        } else if r.start < deletePosition && r.end <= deleteEnd {
          newSelection := Some(Range(r.start, deletePosition));
        } else if r.start >= deletePosition && r.end > deleteEnd {
          newSelection := Some(Range(deletePosition, r.end - deleteLength));
        } else if r.start >= deletePosition && r.end <= deleteEnd {
          newSelection := Some(Range(deletePosition, deletePosition));
        }
      }
      adjusted := cursor.(position := newPosition, selection := newSelection);
    }

    method AdjustCursorsForDeletion(key: string, deletePosition: nat, deleteLength: nat, exclude: Option<string>)
      modifies this
      ensures key !in old(cursorsByDocument) ==> cursorsByDocument == old(cursorsByDocument)
      ensures key in old(cursorsByDocument) ==>
                cursorsByDocument == old(cursorsByDocument)[
                  key := AllAfterDeletion(old(cursorsByDocument)[key], deletePosition, deleteLength, exclude)]
    {
      if key !in cursorsByDocument {
        return;
      }
      ghost var start := cursorsByDocument[key];
      ghost var goal := AllAfterDeletion(start, deletePosition, deleteLength, exclude);
      var documentCursors := cursorsByDocument[key];
      var users := documentCursors.Keys;
      while users != {}
        invariant users <= start.Keys == documentCursors.Keys
        invariant forall u :: u in start ==>
                    documentCursors[u] == if u in users then start[u] else goal[u]
        modifies {}
        decreases |users|
      {
        var userId :| userId in users;
        users := users - {userId};
        if !Excluded(userId, exclude) {
          var cursor := CursorAfterDeletion(documentCursors[userId], deletePosition, deleteLength);
          documentCursors := documentCursors[userId := cursor];
        }
      }
      assert documentCursors == goal;
      cursorsByDocument := cursorsByDocument[key := documentCursors];
    }
  }
}
