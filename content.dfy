/** The shape of one entry of the `articles` content collection, after the
    schema's defaults have been applied (src/content.config.ts). */
module Content {

  datatype Option<T> = None | Some(value: T)

  /** The frontmatter of an article. Dates are millisecond timestamps relative
      to the Unix epoch; a missing `tags`, `draft` or `featured` has already been
      replaced by its default (`[]`, `false`, `false`). */
  datatype ArticleData = ArticleData(
    title: string,
    author: string,
    description: Option<string>,
    publishDate: Option<int>,
    updatedDate: Option<int>,
    tags: seq<string>,
    draft: bool,
    featured: bool)

  /** A collection entry: its identity (derived from the file path) and its data. */
  datatype Article = Article(id: string, data: ArticleData)
}
