/**
 * Identities that stand in for the editor's pointers and toolkit handles.
 * A Document*, a shell Widget and a text-pane Widget are compared only for
 * identity in the modelled code, so each becomes an opaque number.
 */
module Ids {

  /** The conventional optional value; `None` plays the role of a null pointer. */
  datatype Option<+T> = None | Some(value: T)

  /** A document (one tab). */
  datatype DocId = DocId(n: nat)

  /** A top-level shell window, shared by the documents shown as its tabs. */
  datatype ShellId = ShellId(n: nat)

  /** A text widget: the primary text area or one split pane of a document. */
  datatype WidgetId = WidgetId(n: nat)
}
