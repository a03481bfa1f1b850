/** The document list context: a list of events replaced wholesale by each
    update, and the selected document id. */
module DocumentContext {

  import opened Nostr

  datatype DocumentState = DocumentState(documents: seq<Event>, selectedDocumentId: Option<string>)

  /** The provider's initial state. */
  function InitialState(): (st: DocumentState)
    ensures st.documents == [] && st.selectedDocumentId.None?
  {
    DocumentState([], None)
  }

  /** addDocument: the new document goes after the old ones, with no deduplication. */
  function AddDocument(documents: seq<Event>, document: Event): (r: seq<Event>)
    ensures |r| == |documents| + 1 && r[..|documents|] == documents && r[|documents|] == document
    ensures multiset(r)[document] == multiset(documents)[document] + 1
  {
    documents + [document]
  }

  /** updateDocument: every document with the id gets the new content and
      keeps all its other fields; the rest are unchanged; order and length
      are preserved. */
  function UpdateDocument(documents: seq<Event>, id: string, content: string): (r: seq<Event>)
    ensures |r| == |documents|
    ensures forall i :: 0 <= i < |r| && documents[i].id == id ==>
              r[i].content == content && r[i] == documents[i].(content := content)
    ensures forall i :: 0 <= i < |r| && documents[i].id != id ==> r[i] == documents[i]
  {
    seq(|documents|, i requires 0 <= i < |documents| =>
      if documents[i].id == id then documents[i].(content := content) else documents[i])
  }

  /** The ids, in order, are those of the old list. */
  lemma UpdateKeepsIds(documents: seq<Event>, id: string, content: string)
    ensures forall i :: 0 <= i < |documents| ==> UpdateDocument(documents, id, content)[i].id == documents[i].id
  {
  }

  /** Updating with an id no document has changes nothing. */
  lemma UpdateAbsentIsIdentity(documents: seq<Event>, id: string, content: string)
    requires forall i :: 0 <= i < |documents| ==> documents[i].id != id
    ensures UpdateDocument(documents, id, content) == documents
  {
  }

  /** The later of two updates of the same id wins; in particular an update is idempotent. */
  lemma UpdateTwiceIsLastUpdate(documents: seq<Event>, id: string, c1: string, c2: string)
    ensures UpdateDocument(UpdateDocument(documents, id, c1), id, c2) == UpdateDocument(documents, id, c2)
  {
  }

  /** Updating after an add is adding the updated document to the updated list. */
  lemma UpdateAfterAdd(documents: seq<Event>, document: Event, id: string, content: string)
    ensures UpdateDocument(AddDocument(documents, document), id, content)
         == AddDocument(UpdateDocument(documents, id, content),
                        if document.id == id then document.(content := content) else document)
  {
  }
}
