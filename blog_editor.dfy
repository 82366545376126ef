/**
 * The blog editor page script: who may open it, the list of selected
 * images, the unsaved-changes flag and the request a submit sends.  The
 * form controls' values are fields of the editor; file contents arrive
 * already encoded as data URLs.
 */
module BlogEditor {
  import opened Wrappers
  import opened JsStrings
  import AuthRoutes

  /** The largest image accepted: 5 MiB. */
  const MAX_IMAGE_BYTES: nat := 5 * 1024 * 1024

  /** A chosen file: its name, its size in bytes, and its contents as a data URL. */
  datatype SelectedFile = SelectedFile(name: string, size: nat, dataUrl: string)

  /** The data URLs of the files kept, in selection order: every file not larger than the limit. */
  function Accepted(files: seq<SelectedFile>): seq<string>
  {
    if files == [] then []
    else
      var last := files[|files| - 1];
      Accepted(files[..|files| - 1]) + (if last.size > MAX_IMAGE_BYTES then [] else [last.dataUrl])
  }

  /** Exactly the files within the limit are kept: each kept image comes from such a file, and each such file's image is kept. */
  lemma {:induction false} AcceptedMeaning(files: seq<SelectedFile>)
    ensures |Accepted(files)| <= |files|
    ensures forall x :: x in Accepted(files) ==>
              exists i :: 0 <= i < |files| && files[i].size <= MAX_IMAGE_BYTES && files[i].dataUrl == x
    ensures forall i :: 0 <= i < |files| && files[i].size <= MAX_IMAGE_BYTES ==> files[i].dataUrl in Accepted(files)
  {
    if files != [] {
      var init := files[..|files| - 1];
      AcceptedMeaning(init);
      assert forall i :: 0 <= i < |init| ==> init[i] == files[i];
    }
  }

  /** With no file over the limit, every file is kept, in order. */
  lemma {:induction false} AcceptedAllSmall(files: seq<SelectedFile>)
    requires forall i :: 0 <= i < |files| ==> files[i].size <= MAX_IMAGE_BYTES
    ensures |Accepted(files)| == |files|
    ensures forall i :: 0 <= i < |files| ==> Accepted(files)[i] == files[i].dataUrl
  {
    if files != [] {
      AcceptedAllSmall(files[..|files| - 1]);
    }
  }

  /**
   * `selectedImages.splice(index, 1)`: a negative index counts from the
   * end; an index at or past the end removes nothing.
   */
  function SpliceOne(s: seq<string>, index: int): seq<string>
  {
    var start := if index < 0 then (if |s| + index < 0 then 0 else |s| + index) else index;
    if start >= |s| then s else s[..start] + s[start + 1..]
  }

  /** Removing an index in range drops exactly that image; the others keep their relative order. */
  lemma SpliceOneInRange(s: seq<string>, index: int)
    requires 0 <= index < |s|
    ensures |SpliceOne(s, index)| == |s| - 1
    ensures forall k :: 0 <= k < index ==> SpliceOne(s, index)[k] == s[k]
    ensures forall k :: index <= k < |s| - 1 ==> SpliceOne(s, index)[k] == s[k + 1]
    ensures multiset(SpliceOne(s, index)) + multiset{s[index]} == multiset(s)
  {
    assert s == s[..index] + [s[index]] + s[index + 1..];
  }

  /** An index past the end removes nothing. */
  lemma SpliceOnePastEnd(s: seq<string>, index: int)
    requires index >= |s|
    ensures SpliceOne(s, index) == s
  {
  }

  /** The blog as GET /api/blogs/:id returns it, for editing. */
  datatype LoadedBlog = LoadedBlog(title: string, category: string, content: string, images: Option<seq<string>>)

  /** The JSON body a save sends. */
  datatype BlogBody = BlogBody(title: string, category: string, content: string, images: seq<string>)

  datatype Submission = Refused | Request(httpMethod: string, url: string, body: BlogBody)
  {
    function Message(): string
    {
      if Refused? then "Please fill in all required fields" else ""
    }
  }

  /** Where the access check sends the visitor: the editor is for signed-in creators only. */
  datatype Access = ToLogin | ToHome | Stay

  /** The page's check of GET /api/auth/check. */
  function EditorAccess(check: AuthRoutes.CheckResult): (r: Access)
    ensures r == Stay <==> check.Authenticated? && check.user.userType == "creator"
    ensures r == ToLogin <==> check.Anonymous?
  {
    match check
    case Anonymous => ToLogin
    case Authenticated(user) => if user.userType != "creator" then ToHome else Stay
  }

  class Editor {
    var selectedImages: seq<string>
    var isEditMode: bool
    var currentBlogId: Option<string>
    var hasUnsavedChanges: bool
    var title: string
    var category: string
    var content: string

    /** A fresh page: no images, creating a new blog, nothing changed, an empty form. */
    constructor ()
      ensures selectedImages == [] && !isEditMode && currentBlogId == None && !hasUnsavedChanges
      ensures title == "" && category == "" && content == ""
      ensures !WarnsBeforeUnload() && LeavesOnCancel(false)
    {
      selectedImages, isEditMode, currentBlogId, hasUnsavedChanges := [], false, None, false;
      title, category, content := "", "", "";
    }

    /**
     * The `?edit=<id>` parameter: a non-empty id switches to edit mode and
     * loads the blog into the form; its images replace the selection only
     * when it has some.  Loading is not an unsaved change.
     */
    method OpenForEditing(editParam: Option<string>, blog: LoadedBlog)
      modifies this
      ensures editParam.Some? && editParam.value != "" ==>
                && isEditMode && currentBlogId == editParam
                && title == blog.title && category == blog.category && content == blog.content
                && selectedImages == (if blog.images.Some? && blog.images.value != [] then blog.images.value
                                      else old(selectedImages))
      ensures !(editParam.Some? && editParam.value != "") ==>
                && isEditMode == old(isEditMode) && currentBlogId == old(currentBlogId)
                && title == old(title) && category == old(category) && content == old(content)
                && selectedImages == old(selectedImages)
      ensures hasUnsavedChanges == old(hasUnsavedChanges)
      ensures WarnsBeforeUnload() == old(WarnsBeforeUnload()) && LeavesOnCancel(false) == old(LeavesOnCancel(false))
    {
      if editParam.Some? && editParam.value != "" {
        isEditMode := true;
        currentBlogId := editParam;
        title, category, content := blog.title, blog.category, blog.content;
        if blog.images.Some? && |blog.images.value| > 0 {
          selectedImages := blog.images.value;
        }
      }
    }

    /**
     * The file input's change handler: files over the limit are skipped,
     * the others appended after the current images in selection order.
     */
    method AddImages(files: seq<SelectedFile>)
      modifies this
      ensures selectedImages == old(selectedImages) + Accepted(files)
      ensures hasUnsavedChanges
      ensures WarnsBeforeUnload() && !LeavesOnCancel(false) && LeavesOnCancel(true)
      ensures isEditMode == old(isEditMode) && currentBlogId == old(currentBlogId)
      ensures title == old(title) && category == old(category) && content == old(content)
    {
      var i := 0;
      while i < |files|
        invariant 0 <= i <= |files|
        invariant selectedImages == old(selectedImages) + Accepted(files[..i])
        invariant isEditMode == old(isEditMode) && currentBlogId == old(currentBlogId)
        invariant title == old(title) && category == old(category) && content == old(content)
      {
        var file := files[i];
        assert files[..i + 1][..i] == files[..i];
        if file.size > MAX_IMAGE_BYTES {
          i := i + 1;
          continue;
        }
        selectedImages := selectedImages + [file.dataUrl];
        i := i + 1;
      }
      assert files[..i] == files;
      hasUnsavedChanges := true;
    }

    /** The preview's remove button. */
    method RemoveImage(index: int)
      modifies this
      ensures selectedImages == SpliceOne(old(selectedImages), index)
      ensures hasUnsavedChanges
      ensures WarnsBeforeUnload() && !LeavesOnCancel(false) && LeavesOnCancel(true)
      ensures isEditMode == old(isEditMode) && currentBlogId == old(currentBlogId)
      ensures title == old(title) && category == old(category) && content == old(content)
    {
      selectedImages := SpliceOne(selectedImages, index);
      hasUnsavedChanges := true;
    }

    /** Any input in the form. */
    method OnInput(title': string, category': string, content': string)
      modifies this
      ensures title == title' && category == category' && content == content'
      ensures hasUnsavedChanges
      ensures WarnsBeforeUnload() && !LeavesOnCancel(false) && LeavesOnCancel(true)
      ensures selectedImages == old(selectedImages)
      ensures isEditMode == old(isEditMode) && currentBlogId == old(currentBlogId)
    {
      title, category, content := title', category', content';
      hasUnsavedChanges := true;
    }

    /** The target of a save: PUT to the blog in edit mode, otherwise POST a new one. */
    function Target(): (string, string)
      reads this
    {
      if isEditMode
      then ("PUT", "/api/blogs/" + (if currentBlogId.Some? then currentBlogId.value else "null"))
      else ("POST", "/api/blogs")
    }

    /**
     * The submit handler up to the request: title and content are trimmed,
     * and an empty title, category or content refuses the save without a
     * request.
     */
    function Submit(): (r: Submission)
      reads this
      ensures r.Refused? <==> Trim(title) == "" || category == "" || Trim(content) == ""
      ensures r.Request? ==>
                && r.body == BlogBody(Trim(title), category, Trim(content), selectedImages)
                && (isEditMode ==> r.httpMethod == "PUT" && StartsWith(r.url, "/api/blogs/"))
                && (isEditMode && currentBlogId.Some? ==> r.url == "/api/blogs/" + currentBlogId.value)
                && (!isEditMode ==> r.httpMethod == "POST" && r.url == "/api/blogs")
    {
      var body := BlogBody(Trim(title), category, Trim(content), selectedImages);
      if body.title == "" || body.category == "" || body.content == "" then Refused
      else Request(Target().0, Target().1, body)
    }

    /** The response to a save: only a successful one clears the unsaved-changes flag. */
    method OnSaveResponse(ok: bool) returns (alert: Option<string>)
      modifies this
      ensures hasUnsavedChanges == (old(hasUnsavedChanges) && !ok)
      ensures ok ==> !WarnsBeforeUnload() && LeavesOnCancel(false)
      ensures !ok ==> WarnsBeforeUnload() == old(WarnsBeforeUnload()) && LeavesOnCancel(false) == old(LeavesOnCancel(false))
      ensures alert.Some? <==> ok
      ensures ok ==> alert.value == (if isEditMode then "Blog updated successfully!" else "Blog created successfully!")
      ensures selectedImages == old(selectedImages) && isEditMode == old(isEditMode)
      ensures currentBlogId == old(currentBlogId)
      ensures title == old(title) && category == old(category) && content == old(content)
    {
      if ok {
        hasUnsavedChanges := false;
        alert := Some(if isEditMode then "Blog updated successfully!" else "Blog created successfully!");
      } else {
        alert := None;
      }
    }

    /** The cancel button leaves at once without unsaved changes, and otherwise only when the visitor confirms. */
    predicate LeavesOnCancel(confirmed: bool): (leaves: bool)
      reads this
      ensures !hasUnsavedChanges ==> leaves
      ensures hasUnsavedChanges ==> (leaves <==> confirmed)
    {
      !hasUnsavedChanges || confirmed
    }

    /** Leaving the page is warned about exactly while there are unsaved changes. */
    predicate WarnsBeforeUnload(): (warns: bool)
      reads this
      ensures warns <==> hasUnsavedChanges
    {
      hasUnsavedChanges
    }
  }
}
