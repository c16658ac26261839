/**
  The image/caption extractor (lambda-functions/extractImages/lambda_function.py).

  The handler lists every object of the source bucket, keeps the keys that
  end in `.pdf` whatever their case, and for every page of every such PDF and
  every image on the page: derives a destination key, uploads the image bytes
  to the destination bucket, computes a caption from the words near the
  image and, when the caption is not empty, appends an `{image-ref, caption}`
  record to the output. An exception while one PDF is processed abandons the
  rest of that PDF only; a failure of the listing ends the run with status 500.

  The storage service and the PDF parser are given as data: the listing as
  its pages of keys (or the message of a listing failure), each PDF as its
  parsed pages (or as unreadable), and the point, if any, at which processing
  of the PDF raises. The destination bucket is an object whose contents the
  uploads change.
*/
module ExtractImages {
  import opened Options
  import opened Strings
  import opened Captions

  newtype Byte = x: int | 0 <= x < 256

  const SourceBucket: string := "oak-pdf-importer-pdf-storage"
  const DestinationBucket: string := "oak-extracted-images"
  const DestinationPrefix: string := "extracted_images/"
  const ListingErrorPrefix: string := "Error listing or processing S3 objects: "

  /** An image as the PDF parser reports it: its file type, its raw bytes and its bounding box. */
  datatype Image = Image(filetype: string, content: seq<Byte>, box: Box)

  /** A parsed page: its images and the words the parser extracts from it, both in parser order. */
  datatype Page = Page(images: seq<Image>, words: seq<Word>)

  /**
    Where processing of a PDF raises: while handling its image number `at`
    (counting from 0 over all pages, in page order and then image order),
    before the upload of that image (`uploaded` false) or after it, while the
    caption is computed (`uploaded` true). A point past the last image stands
    for a failure after all images were handled.
  */
  datatype Failure = Failure(at: nat, uploaded: bool)

  /** What fetching and opening one PDF gives: a failure before any page, or its pages. */
  datatype PdfOutcome = Unreadable | Opened(pages: seq<Page>, failure: Option<Failure>)

  /** One page of the bucket listing; `None` when the page has no `Contents` entry. */
  datatype ListingPage = ListingPage(contents: Option<seq<string>>)

  /** The whole listing of the source bucket, or the message of the exception that ended it. */
  datatype Listing = Listed(pages: seq<ListingPage>) | ListingFailed(message: string)

  datatype Record = Record(imageRef: string, caption: string)

  /** The response body before JSON serialisation: the records, or an error text. */
  datatype Body = Records(records: seq<Record>) | ErrorText(text: string)

  datatype Response = Response(statusCode: int, body: Body)

  datatype Upload = Upload(key: string, body: seq<Byte>)

  /** An image in its place: page number and image number (both from 0), with its page's words. */
  datatype Slot = Slot(page: nat, index: nat, image: Image, words: seq<Word>)

  /** The destination bucket: the objects stored under each key. */
  class Bucket {
    var objects: map<string, seq<Byte>>

    constructor (objects: map<string, seq<Byte>>)
      ensures this.objects == objects
    {
      this.objects := objects;
    }

    /** `put_object`: stores `body` under `key`, replacing what was there. */
    method Put(key: string, body: seq<Byte>)
      modifies this
      ensures objects == old(objects)[key := body]
    {
      objects := objects[key := body];
    }
  }

  /** The bucket contents after a sequence of uploads, applied in order. */
  function ApplyUploads(m: map<string, seq<Byte>>, ups: seq<Upload>): map<string, seq<Byte>>
    decreases |ups|
  {
    if |ups| == 0 then m
    else
      var last := ups[|ups| - 1];
      ApplyUploads(m, ups[..|ups| - 1])[last.key := last.body]
  }

  // ---------------------------------------------------------------------------
  // Which keys are processed
  // ---------------------------------------------------------------------------

  predicate IsPdfKey(key: string)
  {
    EndsWith(Lower(key), ".pdf")
  }

  /** The keys of a listing, page after page, in listing order. */
  function ListedKeys(pages: seq<ListingPage>): seq<string>
    decreases |pages|
  {
    if |pages| == 0 then []
    else
      var last := pages[|pages| - 1];
      ListedKeys(pages[..|pages| - 1]) + (if last.contents.Some? then last.contents.value else [])
  }

  /** The keys that name PDFs, in their original order. */
  function PdfFilter(keys: seq<string>): seq<string>
    decreases |keys|
  {
    if |keys| == 0 then []
    else
      var last := keys[|keys| - 1];
      PdfFilter(keys[..|keys| - 1]) + (if IsPdfKey(last) then [last] else [])
  }

  function PdfKeys(pages: seq<ListingPage>): seq<string>
  {
    PdfFilter(ListedKeys(pages))
  }

  lemma {:induction false} PdfFilterAppend(a: seq<string>, b: seq<string>)
    ensures PdfFilter(a + b) == PdfFilter(a) + PdfFilter(b)
    decreases |b|
  {
    if |b| == 0 {
      assert a + b == a;
    } else {
      assert (a + b)[..|a + b| - 1] == a + b[..|b| - 1];
      assert (a + b)[|a + b| - 1] == b[|b| - 1];
      PdfFilterAppend(a, b[..|b| - 1]);
    }
  }

  lemma {:induction false} ListedKeysAppend(a: seq<ListingPage>, b: seq<ListingPage>)
    ensures ListedKeys(a + b) == ListedKeys(a) + ListedKeys(b)
    decreases |b|
  {
    if |b| == 0 {
      assert a + b == a;
    } else {
      assert (a + b)[..|a + b| - 1] == a + b[..|b| - 1];
      assert (a + b)[|a + b| - 1] == b[|b| - 1];
      ListedKeysAppend(a, b[..|b| - 1]);
    }
  }

  /** A key is kept exactly when it occurs in the input and names a PDF. */
  lemma {:induction false} PdfFilterMembers(keys: seq<string>)
    ensures forall k :: k in PdfFilter(keys) <==> k in keys && IsPdfKey(k)
    decreases |keys|
  {
    if |keys| > 0 {
      PdfFilterMembers(keys[..|keys| - 1]);
      assert keys == keys[..|keys| - 1] + [keys[|keys| - 1]];
    }
  }

  /** A listing page without `Contents` contributes no key. */
  lemma PageWithoutContentsIgnored(pages: seq<ListingPage>, p: nat)
    requires p < |pages| && pages[p].contents.None?
    ensures PdfKeys(pages) == PdfKeys(pages[..p] + pages[p + 1..])
  {
    var a, x, c := pages[..p], [pages[p]], pages[p + 1..];
    assert pages == (a + x) + c;
    ListedKeysAppend(a + x, c);
    ListedKeysAppend(a, x);
    ListedKeysAppend(a, c);
    assert x[..0] == [];
    assert ListedKeys(x) == [];
    assert ListedKeys(a) + [] == ListedKeys(a);
    assert ListedKeys(pages) == ListedKeys(a + c);
  }

  /**
    Case-insensitivity of the filter: a key is a PDF key exactly when it ends
    in a dot followed by `p`, `d` and `f`, each in either case.
  */
  lemma {:induction false} IsPdfKeyIff(key: string)
    ensures IsPdfKey(key) <==>
      |key| >= 4 && key[|key| - 4] == '.' && key[|key| - 3] in "pP"
      && key[|key| - 2] in "dD" && key[|key| - 1] in "fF"
  {
    var n := |key|;
    EndsWithLast4(Lower(key), ".pdf");
    if n >= 4 {
      LowerCharIs(key[n - 4], '.', '.');
      LowerCharIs(key[n - 3], 'p', 'P');
      LowerCharIs(key[n - 2], 'd', 'D');
      LowerCharIs(key[n - 1], 'f', 'F');
    }
  }

  /** `c` lowers to `lower` exactly when it is `lower` or `upper`. */
  lemma {:induction false} LowerCharIs(c: char, lower: char, upper: char)
    requires (lower == upper && !('A' <= lower <= 'Z') && !('a' <= lower <= 'z'))
      || ('a' <= lower <= 'z' && upper as int == lower as int - 32)
    ensures LowerChar(c) == lower <==> c in [lower, upper]
  {
    assert c in [lower, upper] <==> c == lower || c == upper;
  }

  lemma {:induction false} EndsWithLast4(s: string, t: string)
    requires |t| == 4
    ensures EndsWith(s, t) <==>
      |s| >= 4 && s[|s| - 4] == t[0] && s[|s| - 3] == t[1] && s[|s| - 2] == t[2] && s[|s| - 1] == t[3]
  {
    if |s| >= 4 {
      var e := s[|s| - 4..];
      assert e == [s[|s| - 4], s[|s| - 3], s[|s| - 2], s[|s| - 1]];
      assert t == [t[0], t[1], t[2], t[3]];
    }
  }

  /** The listing loop of the handler: collects the PDF keys, page by page and key by key. */
  method ListPdfKeys(pages: seq<ListingPage>) returns (pdfFiles: seq<string>)
    ensures pdfFiles == PdfKeys(pages)
  {
    pdfFiles := [];
    for p := 0 to |pages|
      invariant pdfFiles == PdfKeys(pages[..p])
    {
      ListedKeysStep(pages, p);
      ghost var listed := ListedKeys(pages[..p]);
      if pages[p].contents.Some? {
        var contents := pages[p].contents.value;
        assert listed + contents[..0] == listed;
        for j := 0 to |contents|
          invariant pdfFiles == PdfFilter(listed + contents[..j])
        {
          PdfFilterStep(listed, contents, j);
          if IsPdfKey(contents[j]) {
            pdfFiles := pdfFiles + [contents[j]];
          }
        }
        assert contents[..|contents|] == contents;
      } else {
        assert listed + [] == listed;
      }
    }
    assert pages[..|pages|] == pages;
  }

  lemma {:induction false} ListedKeysStep(pages: seq<ListingPage>, p: nat)
    requires p < |pages|
    ensures ListedKeys(pages[..p + 1])
      == ListedKeys(pages[..p]) + (if pages[p].contents.Some? then pages[p].contents.value else [])
  {
    assert pages[..p + 1][..p] == pages[..p];
  }

  lemma {:induction false} PdfFilterStep(listed: seq<string>, contents: seq<string>, j: nat)
    requires j < |contents|
    ensures PdfFilter(listed + contents[..j + 1])
      == PdfFilter(listed + contents[..j]) + (if IsPdfKey(contents[j]) then [contents[j]] else [])
  {
    var keys := listed + contents[..j + 1];
    assert keys[..|keys| - 1] == listed + contents[..j];
    assert keys[|keys| - 1] == contents[j];
  }

  // ---------------------------------------------------------------------------
  // Destination keys
  // ---------------------------------------------------------------------------

  /** The image file name: stem of the PDF's basename, 1-based page and image numbers, lower-case file type. */
  function ImageName(pdfKey: string, page: nat, index: nat, filetype: string): string
  {
    Stem(Basename(pdfKey)) + "_page_" + NatToString(page + 1) + "_image_" + NatToString(index + 1)
    + "." + Lower(filetype)
  }

  function DestinationKey(pdfKey: string, page: nat, index: nat, filetype: string): string
  {
    DestinationPrefix + ImageName(pdfKey, page, index, filetype)
  }

  /** The `s3://` URI under which an uploaded image is referenced. */
  function ImageRef(key: string): string
  {
    "s3://" + DestinationBucket + "/" + key
  }

  /**
    Within one PDF, different page/image positions never share a destination
    key, whatever the file types: both numbers are decimal numerals between
    fixed delimiters that start with a non-digit.
  */
  lemma DestinationKeyInjective(pdfKey: string, p1: nat, i1: nat, f1: string, p2: nat, i2: nat, f2: string)
    requires DestinationKey(pdfKey, p1, i1, f1) == DestinationKey(pdfKey, p2, i2, f2)
    ensures p1 == p2 && i1 == i2
  {
    var head := Stem(Basename(pdfKey)) + "_page_";
    var name1, name2 := ImageName(pdfKey, p1, i1, f1), ImageName(pdfKey, p2, i2, f2);
    assert name1 == (DestinationPrefix + name1)[|DestinationPrefix|..];
    assert name2 == (DestinationPrefix + name2)[|DestinationPrefix|..];
    NumberedNameInjective(head, NatToString(p1 + 1), NatToString(i1 + 1), Lower(f1),
                          NatToString(p2 + 1), NatToString(i2 + 1), Lower(f2));
    NatToStringInjective(p1 + 1, p2 + 1);
    NatToStringInjective(i1 + 1, i2 + 1);
  }

  /** The two numerals of a destination key are read back from the key alone. */
  lemma NumberedNameInjective(head: string, a1: string, b1: string, f1: string, a2: string, b2: string, f2: string)
    requires AllDigits(a1) && AllDigits(b1) && AllDigits(a2) && AllDigits(b2)
    requires head + a1 + "_image_" + b1 + "." + f1 == head + a2 + "_image_" + b2 + "." + f2
    ensures a1 == a2 && b1 == b2
  {
    var t1 := "_image_" + b1 + "." + f1;
    var t2 := "_image_" + b2 + "." + f2;
    assert head + a1 + "_image_" + b1 + "." + f1 == head + (a1 + t1);
    assert head + a2 + "_image_" + b2 + "." + f2 == head + (a2 + t2);
    assert a1 + t1 == (head + (a1 + t1))[|head|..];
    assert a2 + t2 == (head + (a2 + t2))[|head|..];
    DigitRunsAgree(a1, t1, a2, t2);
    var u1 := "." + f1;
    var u2 := "." + f2;
    assert b1 + u1 == t1[7..];
    assert b2 + u2 == t2[7..];
    DigitRunsAgree(b1, u1, b2, u2);
  }

  /** Only the basename of the PDF key enters the destination key: the same file name in two directories collides. */
  lemma DestinationKeyIgnoresDirectory(dir1: string, dir2: string, name: string, page: nat, index: nat, filetype: string)
    requires '/' !in name
    ensures DestinationKey(dir1 + "/" + name, page, index, filetype)
         == DestinationKey(dir2 + "/" + name, page, index, filetype)
  {
    BasenameAfterSlash(dir1, name);
    BasenameAfterSlash(dir2, name);
  }

  /** For a PDF file name with something other than dots before its extension, the stem is the name without `.pdf`. */
  lemma PdfStem(name: string)
    requires IsPdfKey(name)
    requires exists j :: 0 <= j < |name| - 4 && name[j] != '.'
    ensures Stem(name) == name[..|name| - 4]
  {
    IsPdfKeyIff(name);
    var n := |name|;
    assert name[n - 4] == '.';
    var dot := LastIndexOf(name, '.');
    LastIndexOfIsLast(name, '.');
    assert name[n - 3] != '.' && name[n - 2] != '.' && name[n - 1] != '.';
    assert dot == n - 4;
    var j :| 0 <= j < n - 4 && name[j] != '.';
    assert name[..dot][j] == name[j];
    HasNonDotIff(name[..dot]);
  }

  lemma BasenameOfExample()
    ensures Basename("lessons/Fractions.PDF") == "Fractions.PDF"
  {
    assert "lessons/Fractions.PDF" == "lessons" + "/" + "Fractions.PDF";
    BasenameAfterSlash("lessons", "Fractions.PDF");
  }

  lemma ExampleIsPdfKey()
    ensures IsPdfKey("Fractions.PDF")
  {
    var name := "Fractions.PDF";
    assert name[9] == '.' && name[10] == 'P' && name[11] == 'D' && name[12] == 'F';
    IsPdfKeyIff(name);
  }

  lemma StemOfExample()
    ensures Stem("Fractions.PDF") == "Fractions"
  {
    var name := "Fractions.PDF";
    ExampleIsPdfKey();
    assert name[0] != '.';
    PdfStem(name);
    assert name[..9] == "Fractions";
  }

  lemma LowerPng()
    ensures Lower("PNG") == "png"
  {
    var l := Lower("PNG");
    assert l[0] == 'p' && l[1] == 'n' && l[2] == 'g';
  }

  /**
    A worked key: `lessons/Fractions.PDF`, page 0, image 2, type `PNG`. The
    steps are separate lemmas because each literal string is unfolded
    character by character; together in one proof they are far costlier.
  */
  lemma DestinationKeyExample()
    ensures DestinationKey("lessons/Fractions.PDF", 0, 2, "PNG") == "extracted_images/Fractions_page_1_image_3.png"
  {
    ExampleKeyParts();
    ConcatExample();
  }

  lemma ExampleKeyParts()
    ensures DestinationKey("lessons/Fractions.PDF", 0, 2, "PNG")
         == DestinationPrefix + ("Fractions" + "_page_" + "1" + "_image_" + "3" + "." + "png")
  {
    BasenameOfExample();
    StemOfExample();
    LowerPng();
    SmallNumerals();
  }

  lemma SmallNumerals()
    ensures NatToString(1) == "1" && NatToString(3) == "3"
  {
  }

  lemma ConcatExample()
    ensures DestinationPrefix + ("Fractions" + "_page_" + "1" + "_image_" + "3" + "." + "png")
         == "extracted_images/Fractions_page_1_image_3.png"
  {
    ConcatName();
  }

  lemma ConcatName()
    ensures "Fractions" + "_page_" + "1" + "_image_" + "3" + "." + "png" == "Fractions_page_1_image_3.png"
  {
  }

  // ---------------------------------------------------------------------------
  // Images in processing order
  // ---------------------------------------------------------------------------

  function PageSlots(p: nat, page: Page): (r: seq<Slot>)
    ensures |r| == |page.images|
    ensures forall i :: 0 <= i < |r| ==> r[i] == Slot(p, i, page.images[i], page.words)
  {
    seq(|page.images|, i requires 0 <= i < |page.images| => Slot(p, i, page.images[i], page.words))
  }

  /** Every image of the document, page by page and, within a page, in parser order. */
  function FlatImages(pages: seq<Page>): seq<Slot>
    decreases |pages|
  {
    if |pages| == 0 then []
    else FlatImages(pages[..|pages| - 1]) + PageSlots(|pages| - 1, pages[|pages| - 1])
  }

  function ImageCount(pages: seq<Page>): nat
  {
    |FlatImages(pages)|
  }

  lemma {:induction false} FlatImagesPrefix(pages: seq<Page>, p: nat)
    requires p <= |pages|
    ensures FlatImages(pages[..p]) <= FlatImages(pages)
    decreases |pages|
  {
    if p < |pages| {
      var init := pages[..|pages| - 1];
      assert init[..p] == pages[..p];
      FlatImagesPrefix(init, p);
    } else {
      assert pages[..p] == pages;
    }
  }

  /** The number of images on the pages before page `p`. */
  function ImagesBefore(pages: seq<Page>, p: nat): nat
    requires p <= |pages|
  {
    if p == 0 then 0 else ImagesBefore(pages, p - 1) + |pages[p - 1].images|
  }

  lemma {:induction false} ImagesBeforeMonotone(pages: seq<Page>, p: nat, q: nat)
    requires p <= q <= |pages|
    ensures ImagesBefore(pages, p) <= ImagesBefore(pages, q)
    decreases q
  {
    if p < q {
      ImagesBeforeMonotone(pages, p, q - 1);
    }
  }

  lemma {:induction false} ImagesBeforeCounts(pages: seq<Page>, p: nat)
    requires p <= |pages|
    ensures ImagesBefore(pages, p) == |FlatImages(pages[..p])|
  {
    if p > 0 {
      ImagesBeforeCounts(pages, p - 1);
      assert pages[..p][..p - 1] == pages[..p - 1];
    }
  }

  /** Image `j` of page `p` is image `ImagesBefore(pages, p) + j` of the whole document. */
  lemma {:induction false} PageRange(pages: seq<Page>, p: nat, j: nat)
    requires p < |pages| && j < |pages[p].images|
    ensures ImagesBefore(pages, p) + j < ImageCount(pages)
    ensures FlatImages(pages)[ImagesBefore(pages, p) + j] == Slot(p, j, pages[p].images[j], pages[p].words)
  {
    ImagesBeforeCounts(pages, p);
    assert pages[..p + 1][..p] == pages[..p];
    var before := FlatImages(pages[..p]);
    var after := FlatImages(pages[..p + 1]);
    assert after == before + PageSlots(p, pages[p]);
    FlatImagesPrefix(pages, p + 1);
    assert after[|before| + j] == Slot(p, j, pages[p].images[j], pages[p].words);
  }

  /** The position of a slot is before that of every later slot, page first, then image. */
  predicate Before(a: Slot, b: Slot)
  {
    a.page < b.page || (a.page == b.page && a.index < b.index)
  }

  /** Every slot names a real image of its page, and slots are in strictly increasing position. */
  lemma {:induction false} FlatImagesOrdered(pages: seq<Page>)
    ensures forall j :: 0 <= j < |FlatImages(pages)| ==>
      var s := FlatImages(pages)[j];
      s.page < |pages| && s.index < |pages[s.page].images|
      && s.image == pages[s.page].images[s.index] && s.words == pages[s.page].words
    ensures forall i, j :: 0 <= i < j < |FlatImages(pages)| ==> Before(FlatImages(pages)[i], FlatImages(pages)[j])
    decreases |pages|
  {
    if |pages| > 0 {
      var init := pages[..|pages| - 1];
      var p := |pages| - 1;
      FlatImagesOrdered(init);
      var a := FlatImages(init);
      var b := PageSlots(p, pages[p]);
      var all := FlatImages(pages);
      assert all == a + b;
      forall j | 0 <= j < |all|
        ensures all[j].page < |pages| && all[j].index < |pages[all[j].page].images|
        ensures all[j].image == pages[all[j].page].images[all[j].index] && all[j].words == pages[all[j].page].words
      {
        if j < |a| {
          assert all[j] == a[j];
          assert pages[a[j].page] == init[a[j].page];
        } else {
          assert all[j] == b[j - |a|];
        }
      }
      forall i, j | 0 <= i < j < |all| ensures Before(all[i], all[j]) {
        if j < |a| {
          assert all[i] == a[i] && all[j] == a[j];
        } else if i < |a| {
          assert all[i] == a[i] && all[j] == b[j - |a|];
        } else {
          assert all[i] == b[i - |a|] && all[j] == b[j - |a|];
        }
      }
    }
  }

  // ---------------------------------------------------------------------------
  // What handling one image produces
  // ---------------------------------------------------------------------------

  function SlotKey(pdfKey: string, s: Slot): string
  {
    DestinationKey(pdfKey, s.page, s.index, s.image.filetype)
  }

  /** The outcome of handling one image: the key it is uploaded under, its bytes and its caption. */
  datatype Entry = Entry(key: string, content: seq<Byte>, caption: string)

  function EntryOf(pdfKey: string, s: Slot): Entry
  {
    Entry(SlotKey(pdfKey, s), s.image.content, Caption(s.image.box, s.words))
  }

  /** The entries of a run of images, in order. */
  function Entries(pdfKey: string, slots: seq<Slot>): (es: seq<Entry>)
    ensures |es| == |slots|
    decreases |slots|
  {
    if |slots| == 0 then []
    else Entries(pdfKey, slots[..|slots| - 1]) + [EntryOf(pdfKey, slots[|slots| - 1])]
  }

  lemma {:induction false} EntryAt(pdfKey: string, slots: seq<Slot>, n: nat)
    requires n < |slots|
    ensures Entries(pdfKey, slots)[n] == EntryOf(pdfKey, slots[n])
    decreases |slots|
  {
    var init := slots[..|slots| - 1];
    EntriesSnoc(pdfKey, slots);
    if n < |init| {
      EntryAt(pdfKey, init, n);
      assert init[n] == slots[n];
      assert Entries(pdfKey, slots)[n] == Entries(pdfKey, init)[n];
    }
  }

  lemma {:induction false} EntriesSnoc(pdfKey: string, slots: seq<Slot>)
    requires |slots| > 0
    ensures Entries(pdfKey, slots) == Entries(pdfKey, slots[..|slots| - 1]) + [EntryOf(pdfKey, slots[|slots| - 1])]
  {
  }

  /** Entry `n` of `es` is the entry of the image in slot `s`. */
  predicate HasEntry(pdfKey: string, es: seq<Entry>, n: nat, s: Slot)
  {
    n < |es| && es[n] == EntryOf(pdfKey, s)
  }

  /** The record an image contributes: one, when its caption is not empty. */
  function RecordOf(e: Entry): seq<Record>
  {
    if e.caption != "" then [Record(ImageRef(e.key), e.caption)] else []
  }

  /** The records for a run of images. */
  function RecordsOf(es: seq<Entry>): seq<Record>
    decreases |es|
  {
    if |es| == 0 then [] else RecordsOf(es[..|es| - 1]) + RecordOf(es[|es| - 1])
  }

  /** The uploads for a run of images: one per image, in order. */
  function UploadsOf(es: seq<Entry>): seq<Upload>
    decreases |es|
  {
    if |es| == 0 then []
    else
      var last := es[|es| - 1];
      UploadsOf(es[..|es| - 1]) + [Upload(last.key, last.content)]
  }

  /** How many images of the document are handled completely before processing stops. */
  function Completed(pages: seq<Page>, failure: Option<Failure>): (n: nat)
    ensures n <= ImageCount(pages)
  {
    if failure.Some? && failure.value.at < ImageCount(pages) then failure.value.at else ImageCount(pages)
  }

  /** The records one PDF contributes to the output. */
  function PdfRecords(pdfKey: string, outcome: PdfOutcome): seq<Record>
  {
    match outcome
    case Unreadable => []
    case Opened(pages, failure) => RecordsOf(Entries(pdfKey, FlatImages(pages))[..Completed(pages, failure)])
  }

  /** The uploads one PDF makes: those of its completed images, and that of the failing image if it was uploaded. */
  function PdfUploads(pdfKey: string, outcome: PdfOutcome): seq<Upload>
  {
    match outcome
    case Unreadable => []
    case Opened(pages, failure) =>
      var es := Entries(pdfKey, FlatImages(pages));
      var n := Completed(pages, failure);
      UploadsOf(es[..n])
      + (if failure.Some? && failure.value.uploaded && n < |es| then [Upload(es[n].key, es[n].content)] else [])
  }

  // ---------------------------------------------------------------------------
  // The whole run
  // ---------------------------------------------------------------------------

  /** What reading a key gives: a key the bucket does not hold cannot be read. */
  function DocumentOf(documents: map<string, PdfOutcome>, key: string): PdfOutcome
  {
    if key in documents then documents[key] else Unreadable
  }

  /** The output for a sequence of PDF keys: each PDF's records, in key order. */
  function Run(keys: seq<string>, documents: map<string, PdfOutcome>): seq<Record>
    decreases |keys|
  {
    if |keys| == 0 then []
    else
      var last := keys[|keys| - 1];
      Run(keys[..|keys| - 1], documents) + PdfRecords(last, DocumentOf(documents, last))
  }

  function RunUploads(keys: seq<string>, documents: map<string, PdfOutcome>): seq<Upload>
    decreases |keys|
  {
    if |keys| == 0 then []
    else
      var last := keys[|keys| - 1];
      RunUploads(keys[..|keys| - 1], documents) + PdfUploads(last, DocumentOf(documents, last))
  }

  /** The number of images in all readable PDFs among the keys. */
  function RunImageCount(keys: seq<string>, documents: map<string, PdfOutcome>): nat
    decreases |keys|
  {
    if |keys| == 0 then 0
    else
      var last := keys[|keys| - 1];
      var here := match DocumentOf(documents, last)
        case Unreadable => 0
        case Opened(pages, _) => ImageCount(pages);
      RunImageCount(keys[..|keys| - 1], documents) + here
  }

  /** The handler's response for a listing and the documents in the source bucket. */
  function HandlerResponse(listing: Listing, documents: map<string, PdfOutcome>): Response
  {
    match listing
    case ListingFailed(message) => Response(500, ErrorText(ListingErrorPrefix + message))
    case Listed(pages) => Response(200, Records(Run(PdfKeys(pages), documents)))
  }

  function HandlerUploads(listing: Listing, documents: map<string, PdfOutcome>): seq<Upload>
  {
    match listing
    case ListingFailed(_) => []
    case Listed(pages) => RunUploads(PdfKeys(pages), documents)
  }

  lemma {:induction false} ApplyUploadsAppend(m: map<string, seq<Byte>>, a: seq<Upload>, b: seq<Upload>)
    ensures ApplyUploads(m, a + b) == ApplyUploads(ApplyUploads(m, a), b)
    decreases |b|
  {
    if |b| == 0 {
      assert a + b == a;
    } else {
      assert (a + b)[..|a + b| - 1] == a + b[..|b| - 1];
      assert (a + b)[|a + b| - 1] == b[|b| - 1];
      ApplyUploadsAppend(m, a, b[..|b| - 1]);
    }
  }

  /** One more image handled: its record (if its caption is not empty) and its upload are appended. */
  lemma {:induction false} EntryStep(m: map<string, seq<Byte>>, es: seq<Entry>, k: nat)
    requires k < |es|
    ensures RecordsOf(es[..k + 1]) == RecordsOf(es[..k]) + RecordOf(es[k])
    ensures ApplyUploads(m, UploadsOf(es[..k + 1])) == ApplyUploads(m, UploadsOf(es[..k]))[es[k].key := es[k].content]
  {
    assert es[..k + 1][..k] == es[..k];
  }

  /** `es` holds one entry per image of the document, that of image `j` of page `p` at `ImagesBefore(pages, p) + j`. */
  predicate EntriesOfPages(pdfKey: string, es: seq<Entry>, pages: seq<Page>)
  {
    |es| == ImagesBefore(pages, |pages|)
    && forall p: nat, j: nat :: p < |pages| && j < |pages[p].images| ==>
      HasEntry(pdfKey, es, ImagesBefore(pages, p) + j, Slot(p, j, pages[p].images[j], pages[p].words))
  }

  lemma {:induction false} PageOfEntries(pdfKey: string, es: seq<Entry>, pages: seq<Page>, p: nat)
    requires EntriesOfPages(pdfKey, es, pages)
    requires p < |pages|
    ensures ImagesBefore(pages, p) + |pages[p].images| <= |es|
    ensures forall j: nat :: j < |pages[p].images| ==>
      HasEntry(pdfKey, es, ImagesBefore(pages, p) + j, Slot(p, j, pages[p].images[j], pages[p].words))
  {
    PageOfEntriesBound(pdfKey, es, pages, p);
  }

  lemma {:induction false} PageOfEntriesBound(pdfKey: string, es: seq<Entry>, pages: seq<Page>, p: nat)
    requires |es| == ImagesBefore(pages, |pages|)
    requires p < |pages|
    ensures ImagesBefore(pages, p) + |pages[p].images| <= |es|
  {
    ImagesBeforeMonotone(pages, p + 1, |pages|);
  }

  lemma {:induction false} PagesEntries(pdfKey: string, pages: seq<Page>)
    ensures EntriesOfPages(pdfKey, Entries(pdfKey, FlatImages(pages)), pages)
  {
    EntriesCount(pdfKey, pages);
    ImagesEntries(pdfKey, pages);
  }

  lemma {:induction false} EntriesCount(pdfKey: string, pages: seq<Page>)
    ensures |Entries(pdfKey, FlatImages(pages))| == ImagesBefore(pages, |pages|)
  {
    ImagesBeforeCounts(pages, |pages|);
    assert pages[..|pages|] == pages;
  }

  lemma {:induction false} ImagesEntries(pdfKey: string, pages: seq<Page>)
    ensures forall p: nat, j: nat :: p < |pages| && j < |pages[p].images| ==>
      HasEntry(pdfKey, Entries(pdfKey, FlatImages(pages)), ImagesBefore(pages, p) + j,
               Slot(p, j, pages[p].images[j], pages[p].words))
  {
    forall p: nat, j: nat | p < |pages| && j < |pages[p].images|
      ensures HasEntry(pdfKey, Entries(pdfKey, FlatImages(pages)), ImagesBefore(pages, p) + j,
                       Slot(p, j, pages[p].images[j], pages[p].words))
    {
      ImageEntry(pdfKey, pages, p, j);
    }
  }

  lemma {:induction false} ImageEntry(pdfKey: string, pages: seq<Page>, p: nat, j: nat)
    requires p < |pages| && j < |pages[p].images|
    ensures HasEntry(pdfKey, Entries(pdfKey, FlatImages(pages)), ImagesBefore(pages, p) + j,
                     Slot(p, j, pages[p].images[j], pages[p].words))
  {
    PageRange(pages, p, j);
    SlotEntry(pdfKey, FlatImages(pages), ImagesBefore(pages, p) + j, Slot(p, j, pages[p].images[j], pages[p].words));
  }

  lemma {:induction false} SlotEntry(pdfKey: string, slots: seq<Slot>, n: nat, s: Slot)
    requires n < |slots| && slots[n] == s
    ensures HasEntry(pdfKey, Entries(pdfKey, slots), n, s)
  {
    EntryAt(pdfKey, slots, n);
  }

  /** When image `k` raises, the PDF's records are those of the images before it. */
  lemma {:induction false} FailureRecords(pdfKey: string, pages: seq<Page>, failure: Failure, k: nat)
    requires failure.at == k < ImageCount(pages)
    ensures PdfRecords(pdfKey, Opened(pages, Some(failure))) == RecordsOf(Entries(pdfKey, FlatImages(pages))[..k])
  {
    assert Completed(pages, Some(failure)) == k;
  }

  /** When image `k` raises, the PDF's uploads are those of the images before it, and its own if it was made. */
  lemma {:induction false} FailureUploads(m: map<string, seq<Byte>>, pdfKey: string, pages: seq<Page>, failure: Failure, k: nat)
    requires failure.at == k < ImageCount(pages)
    ensures var es := Entries(pdfKey, FlatImages(pages));
      ApplyUploads(m, PdfUploads(pdfKey, Opened(pages, Some(failure))))
      == if failure.uploaded then ApplyUploads(m, UploadsOf(es[..k]))[es[k].key := es[k].content]
         else ApplyUploads(m, UploadsOf(es[..k]))
  {
    var es := Entries(pdfKey, FlatImages(pages));
    var done := UploadsOf(es[..k]);
    FailureUploadList(pdfKey, pages, failure, k);
    if failure.uploaded {
      ApplyUploadsSnoc(m, done, Upload(es[k].key, es[k].content));
    } else {
      assert done + [] == done;
    }
  }

  lemma {:induction false} FailureUploadList(pdfKey: string, pages: seq<Page>, failure: Failure, k: nat)
    requires failure.at == k < ImageCount(pages)
    ensures var es := Entries(pdfKey, FlatImages(pages));
      PdfUploads(pdfKey, Opened(pages, Some(failure)))
      == UploadsOf(es[..k]) + if failure.uploaded then [Upload(es[k].key, es[k].content)] else []
  {
    assert Completed(pages, Some(failure)) == k;
  }

  lemma {:induction false} ApplyUploadsSnoc(m: map<string, seq<Byte>>, ups: seq<Upload>, u: Upload)
    ensures ApplyUploads(m, ups + [u]) == ApplyUploads(m, ups)[u.key := u.body]
  {
    assert (ups + [u])[..|ups|] == ups;
  }

  /** When no image raises, the PDF's records and uploads are those of all its images. */
  lemma {:induction false} CompletionStep(pdfKey: string, pages: seq<Page>, failure: Option<Failure>)
    requires failure.None? || failure.value.at >= ImageCount(pages)
    ensures PdfRecords(pdfKey, Opened(pages, failure)) == RecordsOf(Entries(pdfKey, FlatImages(pages)))
    ensures PdfUploads(pdfKey, Opened(pages, failure)) == UploadsOf(Entries(pdfKey, FlatImages(pages)))
  {
    CompletedRecords(pdfKey, pages, failure);
    CompletedUploads(pdfKey, pages, failure);
  }

  lemma {:induction false} CompletedRecords(pdfKey: string, pages: seq<Page>, failure: Option<Failure>)
    requires failure.None? || failure.value.at >= ImageCount(pages)
    ensures PdfRecords(pdfKey, Opened(pages, failure)) == RecordsOf(Entries(pdfKey, FlatImages(pages)))
  {
    var es := Entries(pdfKey, FlatImages(pages));
    assert Completed(pages, failure) == |es|;
    assert es[..|es|] == es;
  }

  lemma {:induction false} CompletedUploads(pdfKey: string, pages: seq<Page>, failure: Option<Failure>)
    requires failure.None? || failure.value.at >= ImageCount(pages)
    ensures PdfUploads(pdfKey, Opened(pages, failure)) == UploadsOf(Entries(pdfKey, FlatImages(pages)))
  {
    var es := Entries(pdfKey, FlatImages(pages));
    CompletedUploadList(pdfKey, pages, failure);
    assert es[..|es|] == es;
    assert UploadsOf(es) + [] == UploadsOf(es);
  }

  lemma {:induction false} CompletedUploadList(pdfKey: string, pages: seq<Page>, failure: Option<Failure>)
    requires failure.None? || failure.value.at >= ImageCount(pages)
    ensures var es := Entries(pdfKey, FlatImages(pages));
      PdfUploads(pdfKey, Opened(pages, failure)) == UploadsOf(es[..|es|]) + []
  {
    assert Completed(pages, failure) == ImageCount(pages);
  }

  // Regrouping stated as a lemma of its own: asserted inline among the run
  // and record functions it makes those proofs several times more expensive.
  lemma ConcatAssoc<T>(a: seq<T>, b: seq<T>, c: seq<T>)
    ensures a + b + c == a + (b + c)
  {
  }

  // ---------------------------------------------------------------------------
  // The handler
  // ---------------------------------------------------------------------------

  /** Derives the destination key of an image, uploads its bytes there and returns its reference. */
  method UploadImage(pdfKey: string, pageNum: nat, i: nat, image: Image, dest: Bucket) returns (uri: string)
    modifies dest
    ensures dest.objects == old(dest.objects)[DestinationKey(pdfKey, pageNum, i, image.filetype) := image.content]
    ensures uri == ImageRef(DestinationKey(pdfKey, pageNum, i, image.filetype))
  {
    var imageName := ImageName(pdfKey, pageNum, i, image.filetype);
    var destinationKey := DestinationPrefix + imageName;
    dest.Put(destinationKey, image.content);
    uri := "s3://" + DestinationBucket + "/" + destinationKey;
  }

  /** The caption of an image: the near words collected by the word loop, joined and stripped. */
  method ImageCaption(image: Box, words: seq<Word>) returns (caption: string)
    ensures caption == Caption(image, words)
  {
    var nearbyText := CollectNearby(image, words);
    caption := Strip(Join(" ", nearbyText));
  }

  /**
    The state after the first `n` images of a PDF, whose entries are `es`,
    were handled: their records follow `output` and their uploads are
    applied to `start`.
  */
  ghost predicate Progress(es: seq<Entry>, failure: Option<Failure>, n: nat,
                           out: seq<Record>, output: seq<Record>,
                           objects: map<string, seq<Byte>>, start: map<string, seq<Byte>>)
  {
    n <= |es| && (failure.None? || failure.value.at >= n)
    && out == output + RecordsOf(es[..n])
    && objects == ApplyUploads(start, UploadsOf(es[..n]))
  }

  /**
    The state in which image `n` raised: the records and uploads of the
    images before it are made, and its own upload too if it got that far.
  */
  ghost predicate Halted(es: seq<Entry>, failure: Option<Failure>, n: nat,
                         out: seq<Record>, output: seq<Record>,
                         objects: map<string, seq<Byte>>, start: map<string, seq<Byte>>)
  {
    failure.Some? && failure.value.at == n < |es|
    && out == output + RecordsOf(es[..n])
    && var before := ApplyUploads(start, UploadsOf(es[..n]));
       objects == if failure.value.uploaded then before[es[n].key := es[n].content] else before
  }

  /** The state after a PDF was handled: its records follow `output` and its uploads are applied to `start`. */
  ghost predicate Finished(pdfKey: string, outcome: PdfOutcome, out: seq<Record>, output: seq<Record>,
                           objects: map<string, seq<Byte>>, start: map<string, seq<Byte>>)
  {
    out == output + PdfRecords(pdfKey, outcome) && objects == ApplyUploads(start, PdfUploads(pdfKey, outcome))
  }

  /** Halting at an image is how a PDF whose image raised ends. */
  lemma {:induction false} HaltedFinished(pdfKey: string, pages: seq<Page>, failure: Option<Failure>, n: nat,
                       out: seq<Record>, output: seq<Record>,
                       objects: map<string, seq<Byte>>, start: map<string, seq<Byte>>)
    requires Halted(Entries(pdfKey, FlatImages(pages)), failure, n, out, output, objects, start)
    ensures Finished(pdfKey, Opened(pages, failure), out, output, objects, start)
  {
    FailureRecords(pdfKey, pages, failure.value, n);
    FailureUploads(start, pdfKey, pages, failure.value, n);
  }

  /** Handling every image is how a PDF whose images all succeed ends. */
  lemma {:induction false} ProgressFinished(pdfKey: string, pages: seq<Page>, failure: Option<Failure>,
                         out: seq<Record>, output: seq<Record>,
                         objects: map<string, seq<Byte>>, start: map<string, seq<Byte>>)
    requires Progress(Entries(pdfKey, FlatImages(pages)), failure, ImageCount(pages), out, output, objects, start)
    ensures Finished(pdfKey, Opened(pages, failure), out, output, objects, start)
  {
    var es := Entries(pdfKey, FlatImages(pages));
    assert es[..ImageCount(pages)] == es;
    assert out == output + RecordsOf(es);
    assert objects == ApplyUploads(start, UploadsOf(es));
    CompletionStep(pdfKey, pages, failure);
  }

  /**
    One image of a page: upload it, then caption it. `n` is its position
    among the images of the document, whose entries are `es`. Ends with
    `stopped` when the image raises.
  */
  method ProcessImage(pdfKey: string, ghost es: seq<Entry>, failure: Option<Failure>, n: nat,
                      pageNum: nat, i: nat, image: Image, words: seq<Word>,
                      dest: Bucket, current: seq<Record>, ghost output: seq<Record>, ghost start: map<string, seq<Byte>>)
    returns (out: seq<Record>, stopped: bool)
    requires n < |es| && es[n] == EntryOf(pdfKey, Slot(pageNum, i, image, words))
    requires Progress(es, failure, n, current, output, dest.objects, start)
    modifies dest
    ensures stopped ==> Halted(es, failure, n, out, output, dest.objects, start)
    ensures !stopped ==> Progress(es, failure, n + 1, out, output, dest.objects, start)
  {
    out, stopped := current, false;
    if failure.Some? && failure.value.at == n && !failure.value.uploaded {
      HaltedBeforeUpload(es, failure, n, out, output, dest.objects, start);
      return out, true;
    }
    ghost var before := dest.objects;
    var uri := UploadImage(pdfKey, pageNum, i, image, dest);
    assert dest.objects == before[es[n].key := es[n].content] && uri == ImageRef(es[n].key);
    if failure.Some? && failure.value.at == n {
      HaltedAfterUpload(es, failure, n, out, output, before, start);
      return out, true;
    }
    var caption := ImageCaption(image.box, words);
    assert caption == es[n].caption;
    if caption != "" {
      out := out + [Record(uri, caption)];
    }
    assert out == current + RecordOf(es[n]);
    ImageHandled(es, failure, n, current, output, before, start);
  }

  /** An image that raises before its upload leaves the state of the images before it. */
  lemma HaltedBeforeUpload(es: seq<Entry>, failure: Option<Failure>, n: nat, out: seq<Record>, output: seq<Record>,
                           objects: map<string, seq<Byte>>, start: map<string, seq<Byte>>)
    requires n < |es| && failure.Some? && failure.value.at == n && !failure.value.uploaded
    requires Progress(es, failure, n, out, output, objects, start)
    ensures Halted(es, failure, n, out, output, objects, start)
  {
  }

  /** An image that raises after its upload adds only that upload. */
  lemma HaltedAfterUpload(es: seq<Entry>, failure: Option<Failure>, n: nat, out: seq<Record>, output: seq<Record>,
                          before: map<string, seq<Byte>>, start: map<string, seq<Byte>>)
    requires n < |es| && failure.Some? && failure.value.at == n && failure.value.uploaded
    requires Progress(es, failure, n, out, output, before, start)
    ensures Halted(es, failure, n, out, output, before[es[n].key := es[n].content], start)
  {
  }

  /** Handling image `n` completely adds its record, if any, and its upload. */
  lemma {:induction false} ImageHandled(es: seq<Entry>, failure: Option<Failure>, n: nat,
                                        current: seq<Record>, output: seq<Record>,
                                        before: map<string, seq<Byte>>, start: map<string, seq<Byte>>)
    requires n < |es| && (failure.None? || failure.value.at != n)
    requires Progress(es, failure, n, current, output, before, start)
    ensures Progress(es, failure, n + 1, current + RecordOf(es[n]), output, before[es[n].key := es[n].content], start)
  {
    EntryStep(start, es, n);
    ConcatAssoc(output, RecordsOf(es[..n]), RecordOf(es[n]));
  }

  /**
    The image loop of one page. `k` counts the document's images handled
    before this page; `next` counts those handled once the page is done, or
    is the position of the image that raised when `stopped`.
  */
  method ProcessPage(pdfKey: string, ghost es: seq<Entry>, failure: Option<Failure>, k: nat,
                     pageNum: nat, page: Page,
                     dest: Bucket, current: seq<Record>, ghost output: seq<Record>, ghost start: map<string, seq<Byte>>)
    returns (out: seq<Record>, stopped: bool, next: nat)
    requires k + |page.images| <= |es|
    requires forall j: nat :: j < |page.images| ==>
      HasEntry(pdfKey, es, k + j, Slot(pageNum, j, page.images[j], page.words))
    requires Progress(es, failure, k, current, output, dest.objects, start)
    modifies dest
    ensures stopped ==> Halted(es, failure, next, out, output, dest.objects, start)
    ensures !stopped ==> next == k + |page.images|
    ensures !stopped ==> Progress(es, failure, next, out, output, dest.objects, start)
  {
    out, stopped := current, false;
    for i := 0 to |page.images|
      invariant Progress(es, failure, k + i, out, output, dest.objects, start)
    {
      out, stopped := ProcessImage(pdfKey, es, failure, k + i, pageNum, i, page.images[i], page.words,
                                   dest, out, output, start);
      if stopped {
        return out, true, k + i;
      }
    }
    next := k + |page.images|;
  }

  /**
    The page loop of one PDF, whose images have the entries `es`. Ends with
    `stopped` and the position `n` of the image that raised, or having
    handled all images.
  */
  method ProcessPages(pdfKey: string, ghost es: seq<Entry>, pages: seq<Page>, failure: Option<Failure>,
                      dest: Bucket, output: seq<Record>)
    returns (out: seq<Record>, stopped: bool, ghost n: nat)
    requires EntriesOfPages(pdfKey, es, pages)
    modifies dest
    ensures stopped ==> Halted(es, failure, n, out, output, dest.objects, old(dest.objects))
    ensures !stopped ==> Progress(es, failure, |es|, out, output, dest.objects, old(dest.objects))
  {
    out, stopped, n := output, false, 0;
    ghost var start := dest.objects;
    assert es[..0] == [];
    var k := 0;
    for pageNum := 0 to |pages|
      invariant k == ImagesBefore(pages, pageNum)
      invariant Progress(es, failure, k, out, output, dest.objects, start)
    {
      var page := pages[pageNum];
      assert ImagesBefore(pages, pageNum + 1) == k + |page.images|;
      PageOfEntries(pdfKey, es, pages, pageNum);
      var next;
      out, stopped, next := ProcessPage(pdfKey, es, failure, k, pageNum, page, dest, out, output, start);
      if stopped {
        return out, true, next;
      }
      k := next;
    }
  }

  /**
    The per-PDF part of the handler, the body of its `try`. `output` is what
    earlier PDFs produced; the method appends this PDF's records and makes
    its uploads. Stopping early stands for the exception that the handler
    catches for this PDF.
  */
  method ProcessPdf(pdfKey: string, outcome: PdfOutcome, dest: Bucket, output: seq<Record>)
    returns (out: seq<Record>)
    modifies dest
    ensures out == output + PdfRecords(pdfKey, outcome)
    ensures dest.objects == ApplyUploads(old(dest.objects), PdfUploads(pdfKey, outcome))
  {
    if outcome.Unreadable? {
      assert output + [] == output;
      return output;
    }
    var pages := outcome.pages;
    var failure := outcome.failure;
    ghost var es := Entries(pdfKey, FlatImages(pages));
    PagesEntries(pdfKey, pages);
    var stopped;
    ghost var n;
    out, stopped, n := ProcessPages(pdfKey, es, pages, failure, dest, output);
    if stopped {
      HaltedFinished(pdfKey, pages, failure, n, out, output, dest.objects, old(dest.objects));
    } else {
      ProgressFinished(pdfKey, pages, failure, out, output, dest.objects, old(dest.objects));
    }
  }

  /**
    The handler: list the PDF keys, process each PDF in turn and answer with
    the accumulated records, or answer 500 when the listing fails.
  */
  method LambdaHandler(listing: Listing, documents: map<string, PdfOutcome>, dest: Bucket)
    returns (response: Response)
    modifies dest
    ensures response == HandlerResponse(listing, documents)
    ensures dest.objects == ApplyUploads(old(dest.objects), HandlerUploads(listing, documents))
  {
    if listing.ListingFailed? {
      return Response(500, ErrorText(ListingErrorPrefix + listing.message));
    }
    var pdfFiles := ListPdfKeys(listing.pages);
    ghost var start := dest.objects;
    var outputData := [];
    for j := 0 to |pdfFiles|
      invariant outputData == Run(pdfFiles[..j], documents)
      invariant dest.objects == ApplyUploads(start, RunUploads(pdfFiles[..j], documents))
    {
      var pdfKey := pdfFiles[j];
      var outcome := if pdfKey in documents then documents[pdfKey] else Unreadable;
      assert pdfFiles[..j + 1][..j] == pdfFiles[..j];
      ApplyUploadsAppend(start, RunUploads(pdfFiles[..j], documents), PdfUploads(pdfKey, outcome));
      outputData := ProcessPdf(pdfKey, outcome, dest, outputData);
    }
    assert pdfFiles[..|pdfFiles|] == pdfFiles;
    response := Response(200, Records(outputData));
  }

  // ---------------------------------------------------------------------------
  // Properties of the run
  // ---------------------------------------------------------------------------

  /** Every record comes from one image of the run, carries that image's reference and a non-empty caption. */
  lemma {:induction false} RecordsFromEntries(es: seq<Entry>)
    ensures |RecordsOf(es)| <= |es|
    ensures forall r :: r in RecordsOf(es) ==>
      r.caption != "" && exists j :: 0 <= j < |es| && r == Record(ImageRef(es[j].key), es[j].caption)
    decreases |es|
  {
    if |es| > 0 {
      var init := es[..|es| - 1];
      RecordsFromEntries(init);
      forall r | r in RecordsOf(es)
        ensures exists j :: 0 <= j < |es| && r == Record(ImageRef(es[j].key), es[j].caption)
      {
        if r in RecordsOf(init) {
          var j :| 0 <= j < |init| && r == Record(ImageRef(init[j].key), init[j].caption);
          assert es[j] == init[j];
        }
      }
    }
  }

  /** The records of a shorter run of the same images are a prefix of the records of the longer run. */
  lemma {:induction false} RecordsOfPrefix(es: seq<Entry>, n: nat)
    requires n <= |es|
    ensures RecordsOf(es[..n]) <= RecordsOf(es)
    decreases |es|
  {
    if n < |es| {
      var init := es[..|es| - 1];
      assert init[..n] == es[..n];
      RecordsOfPrefix(init, n);
    } else {
      assert es[..n] == es;
    }
  }

  /**
    Per-PDF containment: a failure inside a PDF keeps the records of the
    images handled before it, unchanged and in order, and adds nothing else.
  */
  lemma {:induction false} FailureKeepsEarlierRecords(pdfKey: string, pages: seq<Page>, failure: Failure)
    ensures PdfRecords(pdfKey, Opened(pages, Some(failure))) <= PdfRecords(pdfKey, Opened(pages, None))
  {
    var es := Entries(pdfKey, FlatImages(pages));
    var n := Completed(pages, Some(failure));
    assert PdfRecords(pdfKey, Opened(pages, Some(failure))) == RecordsOf(es[..n]);
    CompletedRecords(pdfKey, pages, None);
    RecordsOfPrefix(es, n);
  }

  /**
    Every record one PDF contributes is the reference and the caption of one
    of its images, and that caption is not empty; there are no more records
    than images.
  */
  lemma {:induction false} PdfRecordsFromImages(pdfKey: string, outcome: PdfOutcome)
    ensures forall r :: r in PdfRecords(pdfKey, outcome) ==>
      r.caption != ""
      && (exists s :: s in FlatImages(outcome.pages)
            && r == Record(ImageRef(SlotKey(pdfKey, s)), Caption(s.image.box, s.words)))
    ensures |PdfRecords(pdfKey, outcome)| <= if outcome.Opened? then ImageCount(outcome.pages) else 0
  {
    if outcome.Opened? {
      var slots := FlatImages(outcome.pages);
      var es := Entries(pdfKey, slots);
      var n := Completed(outcome.pages, outcome.failure);
      assert PdfRecords(pdfKey, outcome) == RecordsOf(es[..n]);
      RecordsFromEntries(es[..n]);
      forall r | r in RecordsOf(es[..n])
        ensures exists s :: s in slots && r == Record(ImageRef(SlotKey(pdfKey, s)), Caption(s.image.box, s.words))
      {
        var j :| 0 <= j < n && r == Record(ImageRef(es[..n][j].key), es[..n][j].caption);
        RecordOfSlot(pdfKey, slots, n, j);
      }
    }
  }

  lemma {:induction false} RecordOfSlot(pdfKey: string, slots: seq<Slot>, n: nat, j: nat)
    requires j < n <= |slots|
    ensures var e := Entries(pdfKey, slots)[..n][j];
      slots[j] in slots && e.key == SlotKey(pdfKey, slots[j]) && e.caption == Caption(slots[j].image.box, slots[j].words)
  {
    EntryAt(pdfKey, slots, j);
  }

  /** Over the whole run, every record has a non-empty caption and there are at most as many records as images. */
  lemma {:induction false} RunBound(keys: seq<string>, documents: map<string, PdfOutcome>)
    ensures forall r :: r in Run(keys, documents) ==> r.caption != ""
    ensures |Run(keys, documents)| <= RunImageCount(keys, documents)
    decreases |keys|
  {
    if |keys| > 0 {
      var last := keys[|keys| - 1];
      RunBound(keys[..|keys| - 1], documents);
      PdfRecordsFromImages(last, DocumentOf(documents, last));
    }
  }

  /** The output for two runs of keys is that of the first followed by that of the second: records are only appended. */
  lemma {:induction false} RunAppend(a: seq<string>, b: seq<string>, documents: map<string, PdfOutcome>)
    ensures Run(a + b, documents) == Run(a, documents) + Run(b, documents)
    decreases |b|
  {
    if |b| == 0 {
      assert a + b == a;
    } else {
      var init, last := b[..|b| - 1], b[|b| - 1];
      assert a + b == (a + init) + [last];
      assert b == init + [last];
      RunSnoc(a + init, last, documents);
      RunSnoc(init, last, documents);
      RunAppend(a, init, documents);
      ConcatAssoc(Run(a, documents), Run(init, documents), PdfRecords(last, DocumentOf(documents, last)));
    }
  }

  lemma {:induction false} RunSnoc(keys: seq<string>, key: string, documents: map<string, PdfOutcome>)
    ensures Run(keys + [key], documents) == Run(keys, documents) + PdfRecords(key, DocumentOf(documents, key))
  {
    assert (keys + [key])[..|keys|] == keys;
  }

  /** An unreadable PDF contributes nothing; the PDFs before and after it contribute as if it were absent. */
  lemma {:induction false} UnreadablePdfContained(keys: seq<string>, documents: map<string, PdfOutcome>, j: nat)
    requires j < |keys| && DocumentOf(documents, keys[j]).Unreadable?
    ensures Run(keys, documents) == Run(keys[..j], documents) + Run(keys[j + 1..], documents)
  {
    var a, x, c := keys[..j], [keys[j]], keys[j + 1..];
    assert keys == (a + x) + c;
    RunAppend(a + x, c, documents);
    RunAppend(a, x, documents);
    assert x[..0] == [];
    assert Run(x, documents) == [] + PdfRecords(keys[j], DocumentOf(documents, keys[j]));
    assert Run(a, documents) + [] == Run(a, documents);
  }

  /** With a successful listing the status is 200, whatever the PDFs do; a failed listing gives 500 and a text. */
  lemma HandlerStatus(listing: Listing, documents: map<string, PdfOutcome>)
    ensures HandlerResponse(listing, documents).statusCode == 200 <==> listing.Listed?
    ensures HandlerResponse(listing, documents).statusCode == 500 <==> HandlerResponse(listing, documents).body.ErrorText?
  {
  }

  /** Distinct images of one PDF are uploaded under distinct keys. */
  lemma {:induction false} DistinctSlotKeys(pdfKey: string, pages: seq<Page>)
    ensures forall i, j :: 0 <= i < j < |FlatImages(pages)| ==>
      SlotKey(pdfKey, FlatImages(pages)[i]) != SlotKey(pdfKey, FlatImages(pages)[j])
  {
    var slots := FlatImages(pages);
    FlatImagesOrdered(pages);
    forall i, j | 0 <= i < j < |slots| ensures SlotKey(pdfKey, slots[i]) != SlotKey(pdfKey, slots[j]) {
      assert Before(slots[i], slots[j]);
      if SlotKey(pdfKey, slots[i]) == SlotKey(pdfKey, slots[j]) {
        DestinationKeyInjective(pdfKey, slots[i].page, slots[i].index, slots[i].image.filetype,
                                slots[j].page, slots[j].index, slots[j].image.filetype);
      }
    }
  }

  /** After uploads under pairwise distinct keys, each key holds exactly the bytes uploaded under it. */
  lemma {:induction false} ApplyDistinctUploads(m: map<string, seq<Byte>>, ups: seq<Upload>)
    requires forall i, j :: 0 <= i < j < |ups| ==> ups[i].key != ups[j].key
    ensures forall j :: 0 <= j < |ups| ==>
      ups[j].key in ApplyUploads(m, ups) && ApplyUploads(m, ups)[ups[j].key] == ups[j].body
    decreases |ups|
  {
    if |ups| > 0 {
      var init := ups[..|ups| - 1];
      ApplyDistinctUploads(m, init);
      forall j | 0 <= j < |ups|
        ensures ups[j].key in ApplyUploads(m, ups) && ApplyUploads(m, ups)[ups[j].key] == ups[j].body
      {
        if j < |init| {
          assert init[j] == ups[j];
        }
      }
    }
  }

  lemma {:induction false} UploadsOfAt(es: seq<Entry>)
    ensures |UploadsOf(es)| == |es|
    ensures forall j :: 0 <= j < |es| ==> UploadsOf(es)[j] == Upload(es[j].key, es[j].content)
    decreases |es|
  {
    if |es| > 0 {
      var init := es[..|es| - 1];
      UploadsOfAt(init);
      forall j | 0 <= j < |es| ensures UploadsOf(es)[j] == Upload(es[j].key, es[j].content) {
        if j < |init| {
          assert init[j] == es[j];
        }
      }
    }
  }

  /**
    Round trip of the uploads of a PDF that is processed to the end: every
    image can be read back at its destination key with unmodified bytes.
  */
  lemma {:induction false} UploadedImagesRetrievable(m: map<string, seq<Byte>>, pdfKey: string, pages: seq<Page>)
    ensures forall j :: 0 <= j < |FlatImages(pages)| ==>
      var s := FlatImages(pages)[j];
      var after := ApplyUploads(m, PdfUploads(pdfKey, Opened(pages, None)));
      SlotKey(pdfKey, s) in after && after[SlotKey(pdfKey, s)] == s.image.content
  {
    var slots := FlatImages(pages);
    var es := Entries(pdfKey, slots);
    CompletionStep(pdfKey, pages, None);
    var ups := UploadsOf(es);
    UploadsOfAt(es);
    DistinctSlotKeys(pdfKey, pages);
    forall i, j | 0 <= i < j < |ups| ensures ups[i].key != ups[j].key {
      EntryAt(pdfKey, slots, i);
      EntryAt(pdfKey, slots, j);
      assert ups[i].key == SlotKey(pdfKey, slots[i]) && ups[j].key == SlotKey(pdfKey, slots[j]);
    }
    ApplyDistinctUploads(m, ups);
    forall j | 0 <= j < |slots|
      ensures SlotKey(pdfKey, slots[j]) in ApplyUploads(m, ups)
      ensures ApplyUploads(m, ups)[SlotKey(pdfKey, slots[j])] == slots[j].image.content
    {
      EntryAt(pdfKey, slots, j);
      assert ups[j] == Upload(SlotKey(pdfKey, slots[j]), slots[j].image.content);
    }
  }

  /** Every record's image reference names a key the same PDF uploaded: the upload comes before the caption. */
  lemma RecordsReferToUploads(pdfKey: string, outcome: PdfOutcome)
    ensures forall r :: r in PdfRecords(pdfKey, outcome) ==>
      exists u :: u in PdfUploads(pdfKey, outcome) && r.imageRef == ImageRef(u.key)
  {
    if outcome.Opened? {
      var es := Entries(pdfKey, FlatImages(outcome.pages))[..Completed(outcome.pages, outcome.failure)];
      RecordsFromEntries(es);
      UploadsOfAt(es);
      var ups := PdfUploads(pdfKey, outcome);
      assert UploadsOf(es) <= ups;
      forall r | r in PdfRecords(pdfKey, outcome)
        ensures exists u :: u in ups && r.imageRef == ImageRef(u.key)
      {
        var j :| 0 <= j < |es| && r == Record(ImageRef(es[j].key), es[j].caption);
        assert ups[j] == UploadsOf(es)[j];
        assert ups[j] in ups;
      }
    }
  }
}
