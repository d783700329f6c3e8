/**
 * How commits and changed paths are shown: either as links into a repository browser built
 * from administrator-supplied URL templates (`LinkFormatRenderer`), or as plain text when no
 * template is configured (`NullLinkRenderer`).
 *
 * A template may contain the placeholders `${path}`, `${rev}` and `${rev-1}`, which are
 * replaced literally and in that order.
 */
module LinkRenderers {
  import opened Wrappers
  import opened JavaLang
  import opened TextReplace
  import opened SvnLog

  const PATH_PLACEHOLDER: string := "${path}"
  const REV_PLACEHOLDER: string := "${rev}"
  const PREV_REV_PLACEHOLDER: string := "${rev-1}"

  /** The web-link configuration of a repository (`ViewLinkFormat`); every template may be
      `null`. */
  datatype ViewLinkFormat = ViewLinkFormat(
    linkType: Option<string>,
    changesetFormat: Option<string>,
    fileAddedFormat: Option<string>,
    fileModifiedFormat: Option<string>,
    fileReplacedFormat: Option<string>,
    fileDeletedFormat: Option<string>,
    viewFormat: Option<string>)

  /** The templates a `LinkFormatRenderer` keeps; `None` means the template is unusable. */
  datatype LinkFormatRenderer = LinkFormatRenderer(
    pathLinkFormat: Option<string>,
    fileReplacedFormat: Option<string>,
    fileAddedFormat: Option<string>,
    fileModifiedFormat: Option<string>,
    fileDeletedFormat: Option<string>,
    changesetFormat: Option<string>)

  /** The renderer a repository uses. */
  datatype Renderer = FormatRenderer(formats: LinkFormatRenderer) | NullRenderer

  /** A template is usable when it is non-null and not all characters at or below U+0020. */
  predicate Usable(format: Option<string>) {
    format.Some? && |Trim(format.value)| != 0
  }

  /** `kept` is what the renderer retains of the configured template `given`. */
  predicate Keeps(kept: Option<string>, given: Option<string>) {
    (kept.Some? <==> Usable(given)) && (kept.Some? ==> kept == given)
  }

  function KeepUsable(format: Option<string>): (kept: Option<string>)
    ensures Keeps(kept, format)
  {
    if Usable(format) then format else None
  }

  /** The `LinkFormatRenderer` constructor: every usable template is kept, every null or blank
      one dropped; a missing configuration keeps nothing. */
  function NewLinkFormatRenderer(config: Option<ViewLinkFormat>): (r: LinkFormatRenderer)
    ensures config.None? ==> r == LinkFormatRenderer(None, None, None, None, None, None)
    ensures config.Some? ==>
              && Keeps(r.changesetFormat, config.value.changesetFormat)
              && Keeps(r.fileAddedFormat, config.value.fileAddedFormat)
              && Keeps(r.fileModifiedFormat, config.value.fileModifiedFormat)
              && Keeps(r.fileReplacedFormat, config.value.fileReplacedFormat)
              && Keeps(r.fileDeletedFormat, config.value.fileDeletedFormat)
              && Keeps(r.pathLinkFormat, config.value.viewFormat)
  {
    match config
    case None => LinkFormatRenderer(None, None, None, None, None, None)
    case Some(c) =>
      LinkFormatRenderer(
        KeepUsable(c.viewFormat), KeepUsable(c.fileReplacedFormat), KeepUsable(c.fileAddedFormat),
        KeepUsable(c.fileModifiedFormat), KeepUsable(c.fileDeletedFormat),
        KeepUsable(c.changesetFormat))
  }

  /** A template of spaces and control characters only is never used. */
  lemma BlankFormatUnusable(format: string)
    requires forall i :: 0 <= i < |format| ==> format[i] <= ' '
    ensures !Usable(Some(format))
  {
  }

  // ---------------------------------------------------------------------------------------------
  // Paths and links.

  /** A non-empty path that does not start with '/' gets one prepended; anything else, `null`
      included, is left alone. */
  function NormalisePath(path: Option<string>): (r: Option<string>)
    ensures r.None? <==> path.None?
    ensures r.Some? && |r.value| > 0 ==> r.value[0] == '/'
    ensures r.Some? ==> r.value == path.value || r.value == "/" + path.value
    ensures r.Some? && |path.value| > 0 && path.value[0] == '/' ==> r == path
  {
    match path
    case None => None
    case Some(p) => if |p| > 0 && p[0] != '/' then Some("/" + p) else path
  }

  /** Java string concatenation of a possibly-null string. */
  function Text(s: Option<string>): string {
    match s
    case None => "null"
    case Some(v) => v
  }

  function Anchor(href: string, text: string): string {
    "<a href=\"" + href + "\">" + text + "</a>"
  }

  /** The link target for a template: `${path}` (only for a non-null path), then `${rev}`,
      then `${rev-1}` replaced. */
  function Href(format: string, path: Option<string>, rev: int): (r: string)
    ensures '$' !in format ==> r == format
  {
    HrefNoDollar(format, path, rev);
    var withPath := if path.Some? then ReplaceAll(format, PATH_PLACEHOLDER, path.value) else format;
    var withRev := ReplaceAll(withPath, REV_PLACEHOLDER, IntToString(rev));
    ReplaceAll(withRev, PREV_REV_PLACEHOLDER, IntToString(Wrap64(rev - 1)))
  }

  /** `linkPath`: with a template, an anchor whose text is the normalised path; without one,
      the normalised path itself. */
  function LinkPath(format: Option<string>, path: Option<string>, rev: int): (r: Option<string>)
    ensures format.None? ==> r == NormalisePath(path)
    ensures format.Some? ==>
              r == Some(Anchor(Href(format.value, NormalisePath(path), rev), Text(NormalisePath(path))))
  {
    var p := NormalisePath(path);
    if format.Some? then Some(Anchor(Href(format.value, p, rev), Text(p))) else p
  }

  /** The template for a change-type letter; an unknown letter uses the replaced template. */
  function ChangeFormat(r: LinkFormatRenderer, kind: char): (f: Option<string>)
    ensures kind == MODIFICATION ==> f == r.fileModifiedFormat
    ensures kind == ADDED ==> f == r.fileAddedFormat
    ensures kind == DELETED ==> f == r.fileDeletedFormat
    ensures kind !in {MODIFICATION, ADDED, DELETED} ==> f == r.fileReplacedFormat
  {
    if kind == MODIFICATION then r.fileModifiedFormat
    else if kind == ADDED then r.fileAddedFormat
    else if kind == REPLACED then r.fileReplacedFormat
    else if kind == DELETED then r.fileDeletedFormat
    else r.fileReplacedFormat
  }

  function ChangePathLink(r: LinkFormatRenderer, entry: LogEntry, change: ChangePath): (link: Option<string>)
    ensures link == LinkPath(ChangeFormat(r, change.kind), change.path, entry.revision)
  {
    LinkPath(ChangeFormat(r, change.kind), change.path, entry.revision)
  }

  /** The copy source is rendered with the path template, the copy-from path and the revision
      of the commit being shown (not the copy-from revision). */
  function CopySrcLink(r: LinkFormatRenderer, entry: LogEntry, change: ChangePath): (link: Option<string>)
    ensures link == LinkPath(r.pathLinkFormat, change.copyPath, entry.revision)
  {
    LinkPath(r.pathLinkFormat, change.copyPath, entry.revision)
  }

  /** `#n`, as an anchor into the changeset template when there is one. */
  function RevisionLink(r: LinkFormatRenderer, rev: int): (link: string)
    ensures r.changesetFormat.None? ==> link == "#" + IntToString(rev)
    ensures r.changesetFormat.Some? ==>
              link == Anchor(ReplaceAll(r.changesetFormat.value, REV_PLACEHOLDER, IntToString(rev)),
                             "#" + IntToString(rev))
  {
    var text := "#" + IntToString(rev);
    if r.changesetFormat.Some? then
      Anchor(ReplaceAll(r.changesetFormat.value, REV_PLACEHOLDER, IntToString(rev)), text)
    else text
  }

  // ---------------------------------------------------------------------------------------------
  // The plain-text renderer.

  function NullRevisionLink(entry: LogEntry): (link: string)
    ensures IsLong(entry.revision) ==> ParseLong(link) == Some(entry.revision)
  {
    ParseLongOfIntToStringIfLong(entry.revision);
    IntToString(entry.revision)
  }

  lemma ParseLongOfIntToStringIfLong(n: int)
    ensures IsLong(n) ==> ParseLong(IntToString(n)) == Some(n)
  {
    if IsLong(n) {
      ParseLongOfIntToString(n);
    }
  }

  /** The path exactly as reported, without normalisation. */
  function NullChangePathLink(entry: LogEntry, change: ChangePath): (link: Option<string>)
    ensures link == change.path
  {
    change.path
  }

  /** The copy-from path, a space, '#' and the copy-from revision, negative ones included. */
  function NullCopySrcLink(entry: LogEntry, change: ChangePath): (link: string)
    ensures link == Text(change.copyPath) + " #" + IntToString(change.copyRevision)
  {
    Text(change.copyPath) + " #" + IntToString(change.copyRevision)
  }

  // ---------------------------------------------------------------------------------------------
  // Dispatch through the renderer interface.

  /** `getRevisionLink` on either renderer. */
  function RenderRevision(renderer: Renderer, entry: LogEntry): (link: string)
    ensures renderer.NullRenderer? ==> link == IntToString(entry.revision)
    ensures renderer.FormatRenderer? && renderer.formats.changesetFormat.None? ==> link == "#" + IntToString(entry.revision)
  {
    match renderer
    case FormatRenderer(f) => RevisionLink(f, entry.revision)
    case NullRenderer => NullRevisionLink(entry)
  }

  /** `getChangePathLink` on either renderer. */
  function RenderChangePath(renderer: Renderer, entry: LogEntry, change: ChangePath): (link: Option<string>)
    ensures renderer.NullRenderer? ==> link == change.path
    ensures renderer.FormatRenderer? ==>
              link == LinkPath(ChangeFormat(renderer.formats, change.kind), change.path, entry.revision)
  {
    match renderer
    case FormatRenderer(f) => ChangePathLink(f, entry, change)
    case NullRenderer => NullChangePathLink(entry, change)
  }

  /** `getCopySrcLink` on either renderer: the plain one always gives text, the template one
      gives none when the copy has no path and there is no path template. */
  function RenderCopySrc(renderer: Renderer, entry: LogEntry, change: ChangePath): (link: Option<string>)
    ensures renderer.NullRenderer? ==> link == Some(Text(change.copyPath) + " #" + IntToString(change.copyRevision))
    ensures renderer.FormatRenderer? ==> (link.None? <==> renderer.formats.pathLinkFormat.None? && change.copyPath.None?)
  {
    match renderer
    case FormatRenderer(f) => CopySrcLink(f, entry, change)
    case NullRenderer => Some(NullCopySrcLink(entry, change))
  }

  // ---------------------------------------------------------------------------------------------
  // Properties.

  /** Normalising twice is normalising once: at most one '/' is ever prepended. */
  lemma NormalisePathIdempotent(path: Option<string>)
    ensures NormalisePath(NormalisePath(path)) == NormalisePath(path)
  {
  }

  /** Text without a '$' contains no placeholder. */
  lemma NoDollarNoPlaceholder(s: string, pat: string)
    requires '$' !in s
    requires |pat| > 0 && pat[0] == '$'
    ensures !Contains(s, pat)
  {
  }

  /** A template without placeholders links the normalised path to the template itself. */
  lemma HrefWithoutPlaceholders(format: string, path: Option<string>, rev: int)
    requires '$' !in format
    ensures LinkPath(Some(format), path, rev) == Some(Anchor(format, Text(NormalisePath(path))))
  {
  }

  /** The three substitutions leave a text without '$' alone. */
  lemma HrefNoDollar(format: string, path: Option<string>, rev: int)
    ensures '$' !in format ==>
              var withPath := if path.Some? then ReplaceAll(format, PATH_PLACEHOLDER, path.value) else format;
              var withRev := ReplaceAll(withPath, REV_PLACEHOLDER, IntToString(rev));
              ReplaceAll(withRev, PREV_REV_PLACEHOLDER, IntToString(Wrap64(rev - 1))) == format
  {
    if '$' !in format {
      NoDollarNoPlaceholder(format, PATH_PLACEHOLDER);
      NoDollarNoPlaceholder(format, REV_PLACEHOLDER);
      NoDollarNoPlaceholder(format, PREV_REV_PLACEHOLDER);
      if path.Some? {
        ReplaceAllAbsent(format, PATH_PLACEHOLDER, path.value);
      }
      ReplaceAllAbsent(format, REV_PLACEHOLDER, IntToString(rev));
      ReplaceAllAbsent(format, PREV_REV_PLACEHOLDER, IntToString(Wrap64(rev - 1)));
    }
  }

  /** The decimal form of a number has no '$'. */
  lemma NoDollarInNumber(n: int)
    ensures '$' !in IntToString(n)
  {
  }

  /** A changeset template with one `${rev}` between placeholder-free text links `#n` to that
      text with the revision number in place of the placeholder. */
  lemma RevisionLinkSubstitutes(r: LinkFormatRenderer, before: string, after: string, rev: int)
    requires r.changesetFormat == Some(before + REV_PLACEHOLDER + after)
    requires '$' !in before && '$' !in after
    ensures RevisionLink(r, rev) ==
              Anchor(before + IntToString(rev) + after, "#" + IntToString(rev))
  {
    var format := before + REV_PLACEHOLDER + after;
    var k := |before|;
    assert OccursAt(format, REV_PLACEHOLDER, k) by {
      assert format[k..k + |REV_PLACEHOLDER|] == REV_PLACEHOLDER;
    }
    forall i | 0 <= i < k ensures !OccursAt(format, REV_PLACEHOLDER, i) {
      assert format[i] == before[i];
    }
    ReplaceAllFirstOccurrence(format, REV_PLACEHOLDER, IntToString(rev), k);
    assert format[..k] == before;
    assert format[k + |REV_PLACEHOLDER|..] == after;
    NoDollarNoPlaceholder(after, REV_PLACEHOLDER);
    ReplaceAllAbsent(after, REV_PLACEHOLDER, IntToString(rev));
  }

  /** The four change letters select their own template; every other letter falls back to
      the replaced one. */
  lemma ChangePathLinkDispatch(r: LinkFormatRenderer, entry: LogEntry, change: ChangePath)
    ensures change.kind == REPLACED || change.kind !in {MODIFICATION, ADDED, DELETED} ==>
              ChangePathLink(r, entry, change) == LinkPath(r.fileReplacedFormat, change.path, entry.revision)
    ensures change.kind == MODIFICATION ==>
              ChangePathLink(r, entry, change) == LinkPath(r.fileModifiedFormat, change.path, entry.revision)
    ensures change.kind == ADDED ==>
              ChangePathLink(r, entry, change) == LinkPath(r.fileAddedFormat, change.path, entry.revision)
    ensures change.kind == DELETED ==>
              ChangePathLink(r, entry, change) == LinkPath(r.fileDeletedFormat, change.path, entry.revision)
  {
  }

  /** The plain renderer's path link never depends on the commit it belongs to. */
  lemma NullChangePathLinkIgnoresEntry(e1: LogEntry, e2: LogEntry, change: ChangePath)
    ensures NullChangePathLink(e1, change) == NullChangePathLink(e2, change)
  {
  }

  /** Examples of the path normalisation and the plain copy-source text. */
  lemma Examples()
    ensures NormalisePath(Some("foo")) == Some("/foo")
    ensures NormalisePath(Some("/foo")) == Some("/foo")
    ensures NormalisePath(Some("")) == Some("")
    ensures NullCopySrcLink(LogEntry(1, None, None, None, []), ChangePath(Some("/foo/bar"), 'M', Some("/foo"), -1)) == "/foo #-1"
  {
    assert "/" + "foo" == "/foo";
    assert IntToString(-1) == "-1" by {
      assert NatToString(1) == "1";
    }
  }
}
