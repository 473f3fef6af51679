/** The single pending-selection slot both content scripts keep
    (`selectionTimer`): a `setTimeout` handle is modelled by what it will
    deliver and when. */
module SelectionTimer {
  /** The delay, in milliseconds, between the last qualifying mouseup and
      the translation. */
  const SelectionDelay := 1500

  /** A pending timer: the trimmed text captured at mouseup and the time the
      timer is due. */
  datatype Armed = Armed(selectedText: string, deadline: int)

  /** A mouseup with the selection's text at that moment and the time. */
  datatype MouseUp = MouseUp(selectionText: string, time: int)
}
