/**
 * The PDF library as the services see it: a reader yields a document, which is
 * a sequence of pages, an encryption flag and the passwords its `decrypt`
 * accepts; a writer receives pages one by one.
 */
module Documents {

  /** A page: an opaque content identifier and its /Rotate value in degrees. */
  datatype Page = Page(content: nat, rotation: int)

  /**
   * A document as pypdf's `PdfReader` presents it. `decrypt(pw)` returns a
   * non-zero result exactly when `pw` is in `passwords`.
   */
  datatype Document = Document(pages: seq<Page>, encrypted: bool, passwords: set<string>)

  /**
   * Whether `reader.pages` can be read without calling `decrypt`: pypdf
   * tries only the empty password on an encrypted file, so its pages are
   * readable exactly when it is not encrypted or "" opens it.
   */
  predicate PagesReadable(doc: Document)
  {
    !doc.encrypted || "" in doc.passwords
  }

  /** The pages at the given indices, in the given order (`[pages[i] for i in idx]`). */
  function Pick(pages: seq<Page>, idx: seq<nat>): (r: seq<Page>)
    requires forall k :: 0 <= k < |idx| ==> idx[k] < |pages|
    ensures |r| == |idx|
    ensures forall k :: 0 <= k < |idx| ==> r[k] == pages[idx[k]]
  {
    if idx == [] then [] else Pick(pages, idx[..|idx| - 1]) + [pages[idx[|idx| - 1]]]
  }
}
