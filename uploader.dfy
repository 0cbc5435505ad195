/** The photo editor's state in PhotoUploader.tsx: a bounded undo/redo
    history of photos with a cursor, the photo currently shown, and the
    cutout kept from the last background removal so that a new background
    colour can be applied without segmenting again. Photos are data-URL
    strings; background removal and compositing are foreign steps, passed in
    as functions that may fail. */
module Uploader {
  import opened Common

  type Photo = string

  /** The cutout Blob produced by background removal, as its encoded bytes. */
  datatype Cutout = Cutout(png: seq<byte>)

  const MaxHistory: nat := 20
  const DefaultBgColor: string := "#FFFFFF"

  /** The history entries and the cursor into them. */
  datatype History = History(entries: seq<Photo>, index: int)

  /** At most MaxHistory entries; the cursor is on an entry, or -1 exactly
      when there is none. */
  predicate ValidHistory(h: History)
  {
    -1 <= h.index < |h.entries| <= MaxHistory && (h.index == -1 <==> |h.entries| == 0)
  }

  /** historyRef.current[historyIndexRef.current], undefined off the ends. */
  function AtCursor(h: History): Option<Photo>
  {
    if 0 <= h.index < |h.entries| then Some(h.entries[h.index]) else None
  }

  /** canUndo: there is an entry before the one at the cursor. */
  predicate CanUndo(h: History): (b: bool)
    ensures ValidHistory(h) ==>
      (b <==> AtCursor(h).Some? && AtCursor(History(h.entries, h.index - 1)).Some?)
  {
    h.index > 0
  }

  /** canRedo: there is an entry after the one at the cursor. */
  predicate CanRedo(h: History): (b: bool)
    ensures ValidHistory(h) ==> (b <==> AtCursor(History(h.entries, h.index + 1)).Some?)
  {
    h.index < |h.entries| - 1
  }

  /** addToHistory: drop the redo tail, push the photo, and either shift the
      oldest entry out or move the cursor on. */
  function Added(h: History, photo: Photo): History
    requires ValidHistory(h)
  {
    var kept := if h.index < |h.entries| - 1 then h.entries[..h.index + 1] else h.entries;
    var pushed := kept + [photo];
    if |pushed| > MaxHistory then History(pushed[1..], h.index) else History(pushed, h.index + 1)
  }

  function Undone(h: History): History
  {
    if CanUndo(h) then History(h.entries, h.index - 1) else h
  }

  function Redone(h: History): History
  {
    if CanRedo(h) then History(h.entries, h.index + 1) else h
  }

  /** handlePhotoChange's gate: only a non-empty photo that differs from the
      entry at the cursor is recorded. */
  function Recorded(h: History, photo: Photo): History
    requires ValidHistory(h)
  {
    if photo != "" && AtCursor(h) != Some(photo) then Added(h, photo) else h
  }

  // ---- properties of the history

  /** Adding keeps the history valid, makes the photo the last entry and puts
      the cursor on it. */
  lemma AddedValid(h: History, photo: Photo)
    requires ValidHistory(h)
    ensures var r := Added(h, photo);
      ValidHistory(r) && r.index == |r.entries| - 1 && AtCursor(r) == Some(photo)
  {
  }

  /** Every entry after the cursor (the redo tail) is discarded: below the new
      photo lie the entries up to the cursor, less the oldest one exactly
      when the cursor was on the twentieth entry. */
  lemma {:induction false} AddedDropsRedoTail(h: History, photo: Photo)
    requires ValidHistory(h)
    ensures var r := Added(h, photo);
      var upToCursor := h.entries[..h.index + 1];
      (h.index + 1 < MaxHistory ==> r.entries == upToCursor + [photo] && r.index == h.index + 1) &&
      (h.index + 1 == MaxHistory ==> r.entries == upToCursor[1..] + [photo] && r.index == h.index)
  {
    var upToCursor := h.entries[..h.index + 1];
    assert h.index == |h.entries| - 1 ==> upToCursor == h.entries;
    if h.index + 1 == MaxHistory {
      assert (upToCursor + [photo])[1..] == upToCursor[1..] + [photo];
    }
  }

  /** Undo and redo only move the cursor, and each one undoes the other. */
  lemma UndoRedoInverse(h: History)
    requires ValidHistory(h)
    ensures Undone(h).entries == h.entries && Redone(h).entries == h.entries
    ensures ValidHistory(Undone(h)) && ValidHistory(Redone(h))
    ensures CanUndo(h) ==> Redone(Undone(h)) == h
    ensures CanRedo(h) ==> Undone(Redone(h)) == h
  {
  }

  /** Undo right after recording a photo shows the photo that was current
      before it, whether or not the oldest entry was shifted out. */
  lemma {:induction false} UndoAfterAdd(h: History, photo: Photo)
    requires ValidHistory(h) && h.index >= 0
    ensures CanUndo(Added(h, photo))
    ensures AtCursor(Undone(Added(h, photo))) == AtCursor(h)
  {
    AddedDropsRedoTail(h, photo);
  }

  /** Recording the same photo twice records it once. */
  lemma {:induction false} RecordedIdempotent(h: History, photo: Photo)
    requires ValidHistory(h)
    ensures ValidHistory(Recorded(h, photo))
    ensures Recorded(Recorded(h, photo), photo) == Recorded(h, photo)
  {
    if photo != "" && AtCursor(h) != Some(photo) {
      AddedValid(h, photo);
    }
  }

  // ---- the component state

  class PhotoUploader {
    var history: seq<Photo>
    var historyIndex: int
    /** The photo shown, as last passed to onPhotoSelect. */
    var currentPhoto: Photo
    var transparentBlob: Option<Cutout>
    var selectedBgColor: string
    var showBgSelector: bool

    function State(): History
      reads this
    {
      History(history, historyIndex)
    }

    ghost predicate Valid()
      reads this
    {
      ValidHistory(State())
    }

    constructor(currentPhoto: Photo)
      ensures Valid()
      ensures history == [] && historyIndex == -1 && this.currentPhoto == currentPhoto
      ensures transparentBlob == None && selectedBgColor == DefaultBgColor && !showBgSelector
    {
      history := [];
      historyIndex := -1;
      this.currentPhoto := currentPhoto;
      transparentBlob := None;
      selectedBgColor := DefaultBgColor;
      showBgSelector := false;
    }

    method AddToHistory(photo: Photo)
      requires Valid()
      modifies this
      ensures Valid()
      ensures State() == Added(old(State()), photo)
      ensures currentPhoto == old(currentPhoto) && transparentBlob == old(transparentBlob)
      ensures selectedBgColor == old(selectedBgColor) && showBgSelector == old(showBgSelector)
    {
      AddedValid(State(), photo);
      if historyIndex < |history| - 1 {
        history := history[..historyIndex + 1];
      }
      history := history + [photo];
      if |history| > MaxHistory {
        history := history[1..];
      } else {
        historyIndex := historyIndex + 1;
      }
    }

    /** handlePhotoChange: record the photo if it is new, and show it. */
    method HandlePhotoChange(photo: Photo)
      requires Valid()
      modifies this
      ensures Valid()
      ensures State() == Recorded(old(State()), photo)
      ensures currentPhoto == photo
      ensures transparentBlob == old(transparentBlob)
      ensures selectedBgColor == old(selectedBgColor) && showBgSelector == old(showBgSelector)
    {
      if photo != "" && AtCursor(State()) != Some(photo) {
        AddToHistory(photo);
      }
      currentPhoto := photo;
    }

    method HandleUndo()
      requires Valid()
      modifies this
      ensures Valid()
      ensures State() == Undone(old(State()))
      ensures CanUndo(old(State())) ==> currentPhoto == history[historyIndex]
      ensures !CanUndo(old(State())) ==> currentPhoto == old(currentPhoto)
      ensures transparentBlob == old(transparentBlob)
      ensures selectedBgColor == old(selectedBgColor) && showBgSelector == old(showBgSelector)
    {
      if historyIndex > 0 {
        historyIndex := historyIndex - 1;
        currentPhoto := history[historyIndex];
      }
    }

    method HandleRedo()
      requires Valid()
      modifies this
      ensures Valid()
      ensures State() == Redone(old(State()))
      ensures CanRedo(old(State())) ==> currentPhoto == history[historyIndex]
      ensures !CanRedo(old(State())) ==> currentPhoto == old(currentPhoto)
      ensures transparentBlob == old(transparentBlob)
      ensures selectedBgColor == old(selectedBgColor) && showBgSelector == old(showBgSelector)
    {
      if historyIndex < |history| - 1 {
        historyIndex := historyIndex + 1;
        currentPhoto := history[historyIndex];
      }
    }

    /** handleFile once the reader has produced the photo: a file that is not
      an image is ignored; otherwise the photo is recorded and shown and the
      cached cutout is dropped. */
    method HandleFile(isImage: bool, photo: Photo)
      requires Valid()
      modifies this
      ensures Valid()
      ensures !isImage ==>
        (State() == old(State()) && currentPhoto == old(currentPhoto) &&
         transparentBlob == old(transparentBlob) && showBgSelector == old(showBgSelector))
      ensures isImage ==>
        (State() == Recorded(old(State()), photo) && currentPhoto == photo &&
         transparentBlob == None && !showBgSelector)
      ensures selectedBgColor == old(selectedBgColor)
    {
      if !isImage {
        return;
      }
      HandlePhotoChange(photo);
      transparentBlob := None;
      showBgSelector := false;
    }

    /** clearPhoto: nothing shown, no cutout, an empty history. */
    method ClearPhoto()
      modifies this
      ensures Valid()
      ensures history == [] && historyIndex == -1 && currentPhoto == ""
      ensures transparentBlob == None && !showBgSelector
      ensures selectedBgColor == old(selectedBgColor)
    {
      currentPhoto := "";
      transparentBlob := None;
      showBgSelector := false;
      history := [];
      historyIndex := -1;
    }

    /** handleRemoveBackground: segment the current photo, cache the cutout,
      composite it on the selected colour and record the result. A failing
      step stops the rest; what was done before it stays done. */
    method HandleRemoveBackground(remove: Photo -> Option<Cutout>, compose: (Cutout, string) -> Option<Photo>)
      requires Valid()
      modifies this
      ensures Valid()
      ensures selectedBgColor == old(selectedBgColor)
      ensures old(currentPhoto) == "" || remove(old(currentPhoto)).None? ==>
        State() == old(State()) && currentPhoto == old(currentPhoto) &&
        transparentBlob == old(transparentBlob) && showBgSelector == old(showBgSelector)
      ensures old(currentPhoto) != "" && remove(old(currentPhoto)).Some? ==>
        transparentBlob == remove(old(currentPhoto))
      ensures (old(currentPhoto) != "" && remove(old(currentPhoto)).Some? &&
               compose(remove(old(currentPhoto)).value, selectedBgColor).Some?) ==>
        var shown := compose(remove(old(currentPhoto)).value, selectedBgColor).value;
        State() == Recorded(old(State()), shown) && currentPhoto == shown && showBgSelector
      ensures (old(currentPhoto) != "" && remove(old(currentPhoto)).Some? &&
               compose(remove(old(currentPhoto)).value, selectedBgColor).None?) ==>
        State() == old(State()) && currentPhoto == old(currentPhoto) && showBgSelector == old(showBgSelector)
    {
      if currentPhoto == "" {
        return;
      }
      var blob := remove(currentPhoto);
      if blob.None? {
        return;
      }
      transparentBlob := blob;
      var newPhoto := compose(blob.value, selectedBgColor);
      if newPhoto.None? {
        return;
      }
      HandlePhotoChange(newPhoto.value);
      showBgSelector := true;
    }

    /** handleColorSelect: remember the colour; with a cached cutout, only
      composite it on the new colour; without one, segment first and cache
      the cutout. `segmented` tells whether removal was run. */
    method HandleColorSelect(color: string, remove: Photo -> Option<Cutout>, compose: (Cutout, string) -> Option<Photo>)
      returns (segmented: bool)
      requires Valid()
      modifies this
      ensures Valid()
      ensures old(currentPhoto) == "" ==>
        !segmented && State() == old(State()) && currentPhoto == old(currentPhoto) &&
        transparentBlob == old(transparentBlob) && selectedBgColor == old(selectedBgColor) &&
        showBgSelector == old(showBgSelector)
      ensures old(currentPhoto) != "" ==> selectedBgColor == color
      ensures segmented <==> old(currentPhoto) != "" && old(transparentBlob).None?
      ensures !segmented ==> transparentBlob == old(transparentBlob)
      ensures segmented && remove(old(currentPhoto)).Some? ==> transparentBlob == remove(old(currentPhoto))
      ensures segmented && remove(old(currentPhoto)).None? ==>
        transparentBlob == old(transparentBlob) && State() == old(State()) && currentPhoto == old(currentPhoto)
      ensures old(currentPhoto) != "" && transparentBlob.Some? && compose(transparentBlob.value, color).Some? ==>
        var shown := compose(transparentBlob.value, color).value;
        State() == Recorded(old(State()), shown) && currentPhoto == shown
      ensures old(currentPhoto) != "" && (transparentBlob.None? || compose(transparentBlob.value, color).None?) ==>
        State() == old(State()) && currentPhoto == old(currentPhoto)
      ensures (segmented && remove(old(currentPhoto)).Some? && compose(remove(old(currentPhoto)).value, color).Some?) ==>
        showBgSelector
      ensures !(segmented && remove(old(currentPhoto)).Some? && compose(remove(old(currentPhoto)).value, color).Some?) ==>
        showBgSelector == old(showBgSelector)
    {
      segmented := false;
      if currentPhoto == "" {
        return;
      }
      selectedBgColor := color;
      if transparentBlob.Some? {
        var newPhoto := compose(transparentBlob.value, color);
        if newPhoto.Some? {
          HandlePhotoChange(newPhoto.value);
        }
      } else {
        segmented := true;
        var blob := remove(currentPhoto);
        if blob.None? {
          return;
        }
        transparentBlob := blob;
        var newPhoto := compose(blob.value, color);
        if newPhoto.None? {
          return;
        }
        HandlePhotoChange(newPhoto.value);
        showBgSelector := true;
      }
    }

    /** handleAutoCrop: crop the current photo to the passport ratio and
      record the result; a failed crop changes nothing. */
    method HandleAutoCrop(crop: Photo -> Option<Photo>)
      requires Valid()
      modifies this
      ensures Valid()
      ensures old(currentPhoto) == "" || crop(old(currentPhoto)).None? ==>
        State() == old(State()) && currentPhoto == old(currentPhoto)
      ensures old(currentPhoto) != "" && crop(old(currentPhoto)).Some? ==>
        State() == Recorded(old(State()), crop(old(currentPhoto)).value) &&
        currentPhoto == crop(old(currentPhoto)).value
      ensures transparentBlob == old(transparentBlob) && selectedBgColor == old(selectedBgColor)
      ensures showBgSelector == old(showBgSelector)
    {
      if currentPhoto == "" {
        return;
      }
      var cropped := crop(currentPhoto);
      if cropped.Some? {
        HandlePhotoChange(cropped.value);
      }
    }
  }
}
