/** What `PreviewPane` of src/components/PreviewPane.tsx:10-42 puts on the
    page: the protected pane always shows the sanitized markup, and the
    vulnerable pane, shown only when `showUnsafe` is set, shows the markup
    as typed. Rendering itself is not part of this model. */
module Preview {
  import opened Text
  import opened Sanitise

  /** The markup handed to each pane; `vulnerable` is None when that pane
      is not shown. */
  datatype Panes = Panes(protected: string, vulnerable: Option<string>)

  function Render(content: string, showUnsafe: bool): (r: Panes)
    ensures r.protected == SanitizeHtml(content)
    ensures r.vulnerable.Some? <==> showUnsafe
    ensures showUnsafe ==> r.vulnerable.value == content
  {
    Panes(SanitizeHtml(content), if showUnsafe then Some(content) else None)
  }

  /** Markup with nothing the sanitizer looks for shows the same in both
      panes. */
  lemma CleanPanesAgree(content: string)
    requires Clean(content)
    ensures Render(content, true).vulnerable == Some(Render(content, true).protected)
  {
  }

  /** An empty editor gives an empty protected pane. */
  lemma EmptyPanes(showUnsafe: bool)
    ensures Render("", showUnsafe).protected == ""
    ensures showUnsafe ==> Render("", showUnsafe).vulnerable == Some("")
  {
  }
}
