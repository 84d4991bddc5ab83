/** internal/runtime/cursor.go: a number kept in a file that never goes back. */
module Cursor {
  import opened Basics

  datatype CursorText = Absent | Digits(value: nat) | Garbage

  /** What a readable file says. */
  function Stored(text: CursorText): nat {
    if text.Digits? then text.value else 0
  }

  /** A content over which a cursor is not saved: unreadable, or ahead already. */
  predicate Refuses(text: CursorText, cursor: nat) {
    text == Garbage || cursor < Stored(text)
  }

  /** failures: how often reading or writing has failed. */
  class CursorFile {
    var text: CursorText
    ghost var failures: nat

    method Load() returns (cursor: Option<nat>)
      modifies this`failures
      ensures cursor.Some? ==> text != Garbage && cursor.value == Stored(text)
      ensures cursor.Some? ==> cursor.value == if text.Digits? then text.value else 0
      ensures cursor.None? ==> text == Garbage || failures > old(failures)
      ensures old(failures) <= failures <= old(failures) + if cursor.None? then 1 else 0
    {
      var unreadable: bool := *;
      if unreadable || text == Garbage {
        failures := failures + if unreadable then 1 else 0;
        return None;
      }
      cursor := Some(if text.Digits? then text.value else 0);
    }

    /** Refuses to go back; a write that reports failure leaves the old number or the new. */
    method Save(cursor: nat) returns (ok: bool)
      modifies this
      ensures ok ==> old(text) != Garbage && Stored(old(text)) <= cursor && text == Digits(cursor)
      ensures !ok ==> failures > old(failures) || Refuses(old(text), cursor)
      ensures !ok && failures == old(failures) ==>
        old(text) == Garbage || (old(text).Digits? && cursor < old(text).value)
      ensures old(failures) <= failures && (ok ==> failures == old(failures))
      ensures !ok ==>
        text == old(text) || (old(text) != Garbage && Stored(old(text)) <= cursor && text == Digits(cursor))
    {
      var current := Load();
      if current.None? || cursor < current.value {
        return false;
      }
      var renamed: bool := *;
      var synced: bool := *;
      if renamed {
        text := Digits(cursor);
      }
      ok := renamed && synced;
      failures := failures + if ok then 0 else 1;
    }
  }

  /** With no path configured nothing is kept and nothing can fail. */
  method SaveCursor(file: CursorFile?, cursor: nat) returns (ok: bool)
    modifies file
    ensures file == null ==> ok
    ensures file != null && !ok ==> file.failures > old(file.failures) || Refuses(old(file.text), cursor)
    ensures file != null ==> old(file.failures) <= file.failures && (ok ==> file.failures == old(file.failures))
    ensures file != null && ok ==>
        old(file.text) != Garbage && Stored(old(file.text)) <= cursor && file.text == Digits(cursor)
    ensures file != null && !ok ==>
      || file.text == old(file.text)
      || (old(file.text) != Garbage && Stored(old(file.text)) <= cursor && file.text == Digits(cursor))
  {
    if file == null {
      return true;
    }
    ok := file.Save(cursor);
  }
}
