/**
 * The remote image link box: the text the user types, the entry it hands to
 * the attachment list, and the scheme test that decides whether that entry
 * starts out loading or failed.
 */
module ImageLinkInput {
  import opened Wrappers
  import opened JsText
  import opened ImageUploader

  /** `/^(https?|ftp):\/\//`: the link starts with one of three schemes, case-sensitively. */
  predicate HasScheme(link: string)
  {
    StartsWith(link, "http://") || StartsWith(link, "https://") || StartsWith(link, "ftp://")
  }

  /** The link counts as empty when only JavaScript white space is left after `trim()`. */
  predicate IsBlank(link: string)
  {
    Trim(link, IsSpaceChar) == []
  }

  /**
   * What `handleClick` hands to `onUpload`: nothing when the box is disabled or
   * blank, otherwise a remote entry stamped with the current time whose url is
   * the link as typed, loading when the scheme matches and failed otherwise.
   */
  function ClickEntry(disabled: bool, link: string, stamp: string): (r: Option<ImageFile>)
    ensures r.Some? <==> !disabled && !IsBlank(link)
    ensures r.Some? ==>
              && r.value.id == stamp
              && r.value.transferMethod == RemoteUrl
              && r.value.fileId == Some("")
              && r.value.url == Some(link)
              && r.value.file.None? && r.value.base64Url.None? && r.value.deleted.None?
              && (r.value.progress == 0 <==> HasScheme(link))
              && (r.value.progress == -1 <==> !HasScheme(link))
  {
    if disabled || IsBlank(link) then None
    else Some(ImageFile(stamp, RemoteUrl, Some(""), None, Some(link), None, if HasScheme(link) then 0 else -1, None))
  }

  /** A link with a scheme starts with `h` or `f`. */
  lemma SchemeHead(link: string)
    requires HasScheme(link)
    ensures |link| >= 6 && (link[0] == 'h' || link[0] == 'f')
  {
    if StartsWith(link, "http://") { assert link[..7][0] == link[0]; }
    else if StartsWith(link, "https://") { assert link[..8][0] == link[0]; }
    else { assert link[..6][0] == link[0]; }
  }

  /** A link with a scheme is never blank, so only `disabled` can hold it back. */
  lemma SchemeLinkIsNotBlank(link: string)
    requires HasScheme(link)
    ensures !IsBlank(link)
  {
    SchemeHead(link);
    TrimEmptyIffBlank(link, IsSpaceChar);
    assert !IsSpaceChar(link[0]);
  }

  /**
   * The scheme is tested on the untrimmed link: leading white space yields an
   * entry marked failed even though the trimmed link has a scheme.
   */
  lemma LeadingSpaceFails(rest: string, stamp: string)
    requires HasScheme(rest)
    ensures var e := ClickEntry(false, " " + rest, stamp);
            e.Some? && e.value.progress == -1 && e.value.url == Some(" " + rest)
  {
    var link := " " + rest;
    SchemeHead(rest);
    assert link[1] == rest[0] && !IsSpaceChar(link[1]);
    TrimEmptyIffBlank(link, IsSpaceChar);
    if HasScheme(link) {
      SchemeHead(link);
      assert false;
    }
  }

  /** The link box of `ImageLinkInput`. */
  class LinkInput {
    var imageLink: string

    constructor()
      ensures imageLink == ""
    {
      imageLink := "";
    }

    /** The input's `onChange`. */
    method Change(value: string)
      modifies this
      ensures imageLink == value
    {
      imageLink := value;
    }

    /** `handleClick`: emit the entry and clear the box, or do nothing. */
    method Click(disabled: bool, stamp: string) returns (emitted: Option<ImageFile>)
      modifies this
      ensures emitted == ClickEntry(disabled, old(imageLink), stamp)
      ensures imageLink == if emitted.Some? then "" else old(imageLink)
    {
      if disabled || Trim(imageLink, IsSpaceChar) == [] {
        return None;
      }
      var progress := if HasScheme(imageLink) then 0 else -1;
      emitted := Some(ImageFile(stamp, RemoteUrl, Some(""), None, Some(imageLink), None, progress, None));
      imageLink := "";
    }

    /** The input's `onKeyDown`: Enter on a non-blank link clicks. */
    method KeyDown(key: string, disabled: bool, stamp: string) returns (emitted: Option<ImageFile>)
      modifies this
      ensures key == "Enter" ==> emitted == ClickEntry(disabled, old(imageLink), stamp)
      ensures key != "Enter" ==> emitted.None?
      ensures imageLink == if emitted.Some? then "" else old(imageLink)
    {
      emitted := None;
      if key == "Enter" && Trim(imageLink, IsSpaceChar) != [] {
        emitted := Click(disabled, stamp);
      }
    }
  }
}
