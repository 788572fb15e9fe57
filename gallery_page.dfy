/** What the trainer's gallery form (client/src/pages/TrainerGallery.tsx) sends to
    `gallery.create`: the image key it derives from the URL with `split('/').pop()`, and the
    optional title and category, where an empty field is left out. */
module GalleryPage {
  import opened Wrappers
  import opened Seqs
  import opened Schema
  import opened Routers

  /** `s.split(sep)` for a one-character separator: the pieces between separators, in order;
      a string without the separator is one piece, and the empty string is one empty piece. */
  function Split(s: string, sep: char): (parts: seq<string>)
    ensures |parts| >= 1
    ensures forall i :: 0 <= i < |parts| ==> sep !in parts[i]
  {
    if s == [] then [[]]
    else
      var rest := Split(s[1..], sep);
      if s[0] == sep then [[]] + rest
      else [[s[0]] + rest[0]] + rest[1..]
  }

  /** The pieces put back together with the separator between them (`parts.join(sep)`). */
  function Join(parts: seq<string>, sep: char): string
    requires |parts| >= 1
  {
    if |parts| == 1 then parts[0] else parts[0] + [sep] + Join(parts[1..], sep)
  }

  /** A character put in front of the first piece is put in front of the joined string. */
  lemma JoinPrepend(c: char, parts: seq<string>, sep: char)
    requires |parts| >= 1
    ensures Join([[c] + parts[0]] + parts[1..], sep) == [c] + Join(parts, sep)
  {
    var ps := [[c] + parts[0]] + parts[1..];
    if |parts| > 1 {
      assert ps[1..] == parts[1..];
    }
  }

  /** Splitting loses nothing: joining the pieces gives the string back. */
  lemma {:induction false} JoinSplit(s: string, sep: char)
    ensures Join(Split(s, sep), sep) == s
  {
    if s != [] {
      var rest := Split(s[1..], sep);
      JoinSplit(s[1..], sep);
      if s[0] == sep {
        assert ([[]] + rest)[1..] == rest;
      } else {
        JoinPrepend(s[0], rest, sep);
      }
    }
  }

  /** The last piece of a join, and what comes before it. */
  lemma {:induction false} JoinLast(parts: seq<string>, sep: char)
    requires |parts| >= 2
    ensures Join(parts, sep) == Join(parts[..|parts| - 1], sep) + [sep] + parts[|parts| - 1]
  {
    if |parts| > 2 {
      JoinLast(parts[1..], sep);
      assert parts[1..][..|parts| - 2] == parts[..|parts| - 1][1..];
    }
  }

  /** `s.split(sep).pop()`. */
  function LastPiece(s: string, sep: char): string {
    var parts := Split(s, sep);
    parts[|parts| - 1]
  }

  /** The last piece is the text after the last separator, or the whole string when there is
      none; so it is empty exactly when the string is empty or ends with the separator. */
  lemma LastPieceIsTail(s: string, sep: char)
    ensures var last := LastPiece(s, sep);
      && sep !in last
      && (sep !in s ==> last == s)
      && |last| <= |s| && last == s[|s| - |last|..]
      && (|last| == |s| || s[|s| - |last| - 1] == sep)
      && (last == [] <==> s == [] || s[|s| - 1] == sep)
  {
    var parts := Split(s, sep);
    var last := parts[|parts| - 1];
    JoinSplit(s, sep);
    if |parts| == 1 {
      assert s == last;
    } else {
      JoinLast(parts, sep);
      var front := Join(parts[..|parts| - 1], sep);
      var k := |front|;
      assert s == front + [sep] + last;
      assert |s| - |last| - 1 == k;
      assert s[k] == sep && s[k + 1..] == last;
      if last != [] {
        assert s[|s| - 1] == last[|last| - 1];
      }
    }
  }

  /** `imageUrl.split('/').pop() || 'image'`. */
  function ImageKey(imageUrl: string): (key: string)
    // the key is never empty and never holds a '/'
    ensures key != "" && '/' !in key
    // it is the text after the last '/', unless that text is empty
    ensures key == "image" ||
      (|key| <= |imageUrl| && key == imageUrl[|imageUrl| - |key|..] && (|key| == |imageUrl| || imageUrl[|imageUrl| - |key| - 1] == '/'))
    // an empty URL or one that ends in '/' has the fallback key
    ensures imageUrl == "" || imageUrl[|imageUrl| - 1] == '/' ==> key == "image"
    // a non-empty URL without '/' is its own key
    ensures imageUrl != "" && '/' !in imageUrl ==> key == imageUrl
  {
    var last := LastPiece(imageUrl, '/');
    LastPieceIsTail(imageUrl, '/');
    if last == "" then "image" else last
  }

  /** `formData.get(name) as string || undefined`: a missing field (null) and an empty one
      become undefined. */
  function EmptyToNone(field: Option<string>): (r: Option<string>)
    ensures r.None? <==> field.None? || field.value == ""
    ensures r.Some? ==> r == field
  {
    if field.Some? && field.value != "" then field else None
  }

  /** The `data` handleSubmit passes to `gallery.create`. */
  function GalleryPayload(imageUrl: string, title: Option<string>, category: Option<string>): (input: GalleryCreateInput)
    ensures input.imageUrl == imageUrl && input.imageKey == ImageKey(imageUrl)
    ensures input.title == EmptyToNone(title) && input.category == EmptyToNone(category)
  {
    GalleryCreateInput(EmptyToNone(title), imageUrl, ImageKey(imageUrl), EmptyToNone(category))
  }

  /** The page's category buttons; the form's dropdown offers all of them but "all". */
  const CategoryFilters: seq<string> := ["all"] + CategoryNames + ["general"]

  function FormCategories(): (r: seq<string>)
    ensures forall c :: c in r <==> c in CategoryFilters && c != "all"
  {
    Filter(CategoryFilters, (c: string) => c != "all")
  }

  /** Every value of the dropdown is a team category or "general". */
  lemma FormCategoryIsGalleryCategory(c: string)
    requires c in FormCategories()
    ensures c in CategoryNames || c == "general"
  {
    assert c in ["all"] + CategoryNames || c in ["general"];
  }

  /** Whatever the dropdown holds, or nothing, the server's schema accepts the payload. */
  lemma FormCategoriesAccepted(imageUrl: string, title: Option<string>, category: Option<string>, userId: int)
    requires category.None? || category.value == "" || category.value in FormCategories()
    ensures GalleryCreateRecord(GalleryPayload(imageUrl, title, category), userId).Ok?
  {
    if category.Some? && category.value != "" {
      FormCategoryIsGalleryCategory(category.value);
    }
  }

  /** The "all" button value, which the dropdown leaves out, would be refused. */
  lemma AllCategoryRefused(imageUrl: string, title: Option<string>, userId: int)
    ensures GalleryCreateRecord(GalleryPayload(imageUrl, title, Some("all")), userId).Err?
  {
    assert "all" !in CategoryNames;
  }
}
