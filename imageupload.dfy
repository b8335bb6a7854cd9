/** Image selection on the create-listing form (handleImageSelection,
    removeImage): at most five files are considered, each must be an image of
    at most 5 MB, and each accepted file gets a preview with a remove button. */
module ImageUpload {
  import opened Common
  import opened Strings

  const MAX_IMAGES := 5
  const MAX_IMAGE_BYTES := 5 * 1024 * 1024

  /** A chosen file: its name, its size in bytes and its MIME type. */
  datatype ImageFile = ImageFile(name: string, size: nat, mimeType: string)

  datatype Warning = TooManyImages | TooLarge(name: string) | NotAnImage(name: string)

  function WarningText(w: Warning): string {
    match w
    case TooManyImages => "Maximum 5 images allowed"
    case TooLarge(name) => name + " is too large. Maximum 5MB per image."
    case NotAnImage(name) => name + " is not a valid image file."
  }

  predicate Acceptable(f: ImageFile) {
    f.size <= MAX_IMAGE_BYTES && StartsWith(f.mimeType, "image/")
  }

  /** The check made on each file: the size first, then the type. */
  function FileCheck(f: ImageFile): (w: Option<Warning>)
    ensures w.None? <==> Acceptable(f)
    ensures w == Some(TooLarge(f.name)) <==> f.size > MAX_IMAGE_BYTES
    ensures w == Some(NotAnImage(f.name)) <==> f.size <= MAX_IMAGE_BYTES && !StartsWith(f.mimeType, "image/")
  {
    if f.size > MAX_IMAGE_BYTES then Some(TooLarge(f.name))
    else if !StartsWith(f.mimeType, "image/") then Some(NotAnImage(f.name))
    else None
  }

  /** The files that end up selected, in the order chosen. This is the
      client's filter over Acceptable (AcceptedIsFilter), written from the
      back so that it grows with the selection loop. */
  function AcceptedFiles(files: seq<ImageFile>): (r: seq<ImageFile>)
    ensures |r| <= |files|
    ensures forall k :: 0 <= k < |r| ==> Acceptable(r[k])
    decreases |files|
  {
    if files == [] then []
    else
      var init := files[..|files| - 1];
      var last := files[|files| - 1];
      AcceptedFiles(init) + if Acceptable(last) then [last] else []
  }

  /** AcceptedFiles keeps the acceptable files in order, as filter does. */
  lemma {:induction false} AcceptedIsFilter(files: seq<ImageFile>)
    ensures AcceptedFiles(files) == Filter(files, Acceptable)
    ensures IsSubsequence(AcceptedFiles(files), files)
    decreases |files|
  {
    if files != [] {
      var init, last := files[..|files| - 1], files[|files| - 1];
      AcceptedIsFilter(init);
      FilterSnoc(init, last, Acceptable);
      assert init + [last] == files;
    }
    FilterIsSubsequence(files, Acceptable);
  }

  /** The positions of the refused files among the chosen ones, in order. */
  function RefusedIndices(files: seq<ImageFile>): (r: seq<nat>)
    ensures forall k :: 0 <= k < |r| ==> r[k] < |files| && !Acceptable(files[r[k]])
    ensures forall k, k' :: 0 <= k < k' < |r| ==> r[k] < r[k']
    decreases |files|
  {
    if files == [] then []
    else
      var init := files[..|files| - 1];
      var earlier := RefusedIndices(init);
      assert forall k :: 0 <= k < |earlier| ==> files[earlier[k]] == init[earlier[k]];
      earlier + if Acceptable(files[|files| - 1]) then [] else [|files| - 1]
  }

  /** Every chosen file is either accepted, and has a preview, or refused,
      and has a warning. */
  lemma {:induction false} EveryFileAccountedFor(files: seq<ImageFile>, i: nat)
    requires i < |files|
    ensures Acceptable(files[i]) ==> i in PreviewIndices(files)
    ensures !Acceptable(files[i]) ==> i in RefusedIndices(files)
    decreases |files|
  {
    var init := files[..|files| - 1];
    if i < |files| - 1 {
      EveryFileAccountedFor(init, i);
      assert files[i] == init[i];
    }
  }

  /** One warning per refused file, in the order chosen: the k-th warning is
      the one for the k-th refused file. */
  function FileWarnings(files: seq<ImageFile>): (w: seq<Warning>)
    ensures |w| + |AcceptedFiles(files)| == |files|
    ensures |w| == |RefusedIndices(files)|
    ensures forall k :: 0 <= k < |w| ==> FileCheck(files[RefusedIndices(files)[k]]) == Some(w[k])
    decreases |files|
  {
    if files == [] then []
    else
      var init := files[..|files| - 1];
      var earlier := FileWarnings(init);
      var refused := RefusedIndices(init);
      assert forall k :: 0 <= k < |earlier| ==> files[refused[k]] == init[refused[k]];
      match FileCheck(files[|files| - 1])
      case None => earlier
      case Some(w) => earlier + [w]
  }

  /** The data-index of each preview's remove button as written: the
      position of the file among all the chosen files. */
  function PreviewIndices(files: seq<ImageFile>): (r: seq<nat>)
    ensures |r| == |AcceptedFiles(files)|
    ensures forall k :: 0 <= k < |r| ==> r[k] < |files| && files[r[k]] == AcceptedFiles(files)[k]
    ensures forall k, k' :: 0 <= k < k' < |r| ==> r[k] < r[k']
    decreases |files|
  {
    if files == [] then []
    else
      var init := files[..|files| - 1];
      var last := files[|files| - 1];
      var earlier := PreviewIndices(init);
      var accepted := AcceptedFiles(init);
      assert AcceptedFiles(files) == accepted + if Acceptable(last) then [last] else [];
      forall k | 0 <= k < |earlier| ensures files[earlier[k]] == accepted[k] {
        assert files[earlier[k]] == init[earlier[k]];
      }
      earlier + if Acceptable(last) then [|files| - 1] else []
  }

  /** The button indices the removal needs: the position of the file among
      the selected images. */
  function FixedPreviewIndices(files: seq<ImageFile>): (r: seq<nat>)
    ensures |r| == |AcceptedFiles(files)|
    ensures forall k :: 0 <= k < |r| ==> r[k] < |r| && AcceptedFiles(files)[r[k]] == AcceptedFiles(files)[k]
  {
    Positions(|AcceptedFiles(files)|)
  }

  /** The positions 0 to n - 1, in order. */
  function Positions(n: nat): (r: seq<nat>)
    ensures |r| == n && forall k :: 0 <= k < n ==> r[k] == k
  {
    if n == 0 then [] else Positions(n - 1) + [n - 1]
  }

  /** Array.prototype.splice(index, 1) for a non-negative index: the element
      at the index is removed and the later ones move down by one; an index
      past the end removes nothing. */
  function Splice<T>(s: seq<T>, index: nat): (r: seq<T>)
    ensures index < |s| ==> |r| == |s| - 1
    ensures index >= |s| ==> r == s
    ensures forall k :: 0 <= k < |r| && k < index ==> r[k] == s[k]
    ensures forall k :: index <= k < |r| ==> r[k] == s[k + 1]
  {
    if index < |s| then s[..index] + s[index + 1..] else s
  }

  /** With the corrected indices, the remove button of the k-th preview
      removes exactly the k-th selected image. */
  lemma FixedRemoveDropsClicked(files: seq<ImageFile>, k: nat)
    requires k < |AcceptedFiles(files)|
    ensures Splice(AcceptedFiles(files), FixedPreviewIndices(files)[k]) ==
      AcceptedFiles(files)[..k] + AcceptedFiles(files)[k + 1..]
  {
  }

  /** When every chosen file is accepted, all of them are selected. */
  lemma {:induction false} AllAcceptedKept(files: seq<ImageFile>)
    requires forall i :: 0 <= i < |files| ==> Acceptable(files[i])
    ensures AcceptedFiles(files) == files
    decreases |files|
  {
    if files != [] {
      var init := files[..|files| - 1];
      AllAcceptedKept(init);
      assert init + [files[|files| - 1]] == files;
    }
  }

  /** When every chosen file is accepted, no warning is shown. */
  lemma NoWarningsWhenAllAccepted(files: seq<ImageFile>)
    requires forall i :: 0 <= i < |files| ==> Acceptable(files[i])
    ensures FileWarnings(files) == []
  {
    AllAcceptedKept(files);
  }

  /** When every chosen file is accepted, the written indices are the
      corrected ones. */
  lemma {:induction false} IndicesAgreeWhenAllAccepted(files: seq<ImageFile>)
    requires forall i :: 0 <= i < |files| ==> Acceptable(files[i])
    ensures PreviewIndices(files) == FixedPreviewIndices(files)
    decreases |files|
  {
    AllAcceptedKept(files);
    if files != [] {
      var n := |files|;
      var init := files[..n - 1];
      assert Acceptable(files[n - 1]);
      IndicesAgreeWhenAllAccepted(init);
      AllAcceptedKept(init);
      assert PreviewIndices(init) == Positions(n - 1);
      assert PreviewIndices(files) == PreviewIndices(init) + [n - 1];
      assert FixedPreviewIndices(files) == Positions(n);
    }
  }

  /** With a rejected file chosen before two images, the remove button of
      the first image's preview carries index 1, and the splice removes the
      second image instead. */
  lemma RemoveButtonMisnumbered(files: seq<ImageFile>)
    requires files == [ImageFile("scan.pdf", 1000, "application/pdf"),
                        ImageFile("a.png", 1000, "image/png"),
                        ImageFile("b.png", 1000, "image/png")]
    ensures AcceptedFiles(files) == [files[1], files[2]]
    ensures PreviewIndices(files)[0] == 1
    ensures Splice(AcceptedFiles(files), PreviewIndices(files)[0]) == [files[1]]
    ensures FixedPreviewIndices(files)[0] == 0
    ensures Splice(AcceptedFiles(files), FixedPreviewIndices(files)[0]) == [files[2]]
  {
    assert !StartsWith(files[0].mimeType, "image/") by {
      assert files[0].mimeType[..6] != "image/" by {
        assert files[0].mimeType[0] == 'a';
      }
    }
    assert StartsWith(files[1].mimeType, "image/");
    assert StartsWith(files[2].mimeType, "image/");
    assert files[..2][..1] == [files[0]] && files[..1][..0] == [];
    assert AcceptedFiles(files[..1]) == [];
    assert AcceptedFiles(files[..2]) == [files[1]];
  }

  /** What considering one more file adds to the selection, the warnings
      and the previews. */
  lemma SelectionStep(files: seq<ImageFile>, index: nat)
    requires index < |files|
    ensures Acceptable(files[index]) ==>
      && AcceptedFiles(files[..index + 1]) == AcceptedFiles(files[..index]) + [files[index]]
      && FileWarnings(files[..index + 1]) == FileWarnings(files[..index])
      && PreviewIndices(files[..index + 1]) == PreviewIndices(files[..index]) + [index]
    ensures !Acceptable(files[index]) ==>
      && AcceptedFiles(files[..index + 1]) == AcceptedFiles(files[..index])
      && FileWarnings(files[..index + 1]) == FileWarnings(files[..index]) + [FileCheck(files[index]).value]
      && PreviewIndices(files[..index + 1]) == PreviewIndices(files[..index])
  {
    var init := files[..index + 1][..index];
    assert init == files[..index];
    assert init + [] == init;
  }

  /** The images chosen on the form. */
  class ImagePicker {
    var selected: seq<ImageFile>

    /** At most five images are selected, all of them acceptable. */
    predicate Valid()
      reads this
    {
      |selected| <= MAX_IMAGES && forall i :: 0 <= i < |selected| ==> Acceptable(selected[i])
    }

    constructor()
      ensures selected == [] && Valid()
    {
      selected := [];
    }

    /** resetCreateForm: when the form is on the page, the selection is
        emptied; otherwise nothing changes. */
    method Reset(formPresent: bool)
      requires Valid()
      modifies this
      ensures Valid()
      ensures selected == if formPresent then [] else old(selected)
    {
      if formPresent {
        selected := [];
      }
    }

    /** handleImageSelection: more than five files are refused with a
        warning and the selection is kept; otherwise the selection is
        replaced by the acceptable files, with a warning for each other one
        and a preview for each accepted one. */
    method HandleImageSelection(files: seq<ImageFile>) returns (warnings: seq<Warning>, previewIndices: seq<nat>)
      requires Valid()
      modifies this
      ensures Valid()
      ensures |files| > MAX_IMAGES ==>
        selected == old(selected) && warnings == [TooManyImages] && previewIndices == []
      ensures |files| <= MAX_IMAGES ==>
        && selected == AcceptedFiles(files)
        && warnings == FileWarnings(files)
        && previewIndices == PreviewIndices(files)
    {
      if |files| > MAX_IMAGES {
        return [TooManyImages], [];
      }
      selected := [];
      warnings := [];
      previewIndices := [];
      var index := 0;
      while index < |files|
        invariant 0 <= index <= |files|
        invariant selected == AcceptedFiles(files[..index])
        invariant warnings == FileWarnings(files[..index])
        invariant previewIndices == PreviewIndices(files[..index])
      {
        var file := files[index];
        SelectionStep(files, index);
        if file.size > MAX_IMAGE_BYTES {
          assert !Acceptable(file);
          warnings := warnings + [TooLarge(file.name)];
        } else if !StartsWith(file.mimeType, "image/") {
          assert !Acceptable(file);
          warnings := warnings + [NotAnImage(file.name)];
        } else {
          selected := selected + [file];
          previewIndices := previewIndices + [index];
        }
        index := index + 1;
      }
      assert files[..index] == files;
    }

    /** removeImage: the image at the index is spliced out, and the change
        event it dispatches runs the selection again on what is left, which
        keeps it as it is and renumbers the previews from 0. */
    method RemoveImage(index: nat) returns (warnings: seq<Warning>, previewIndices: seq<nat>)
      requires Valid()
      modifies this
      ensures Valid()
      ensures selected == Splice(old(selected), index)
      ensures warnings == [] && previewIndices == FixedPreviewIndices(selected)
    {
      selected := Splice(selected, index);
      var remaining := selected;
      AllAcceptedKept(remaining);
      NoWarningsWhenAllAccepted(remaining);
      IndicesAgreeWhenAllAccepted(remaining);
      warnings, previewIndices := HandleImageSelection(remaining);
    }
  }
}
