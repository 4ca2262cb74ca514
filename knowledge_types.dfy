/** The plain-data shapes shared by the card parser and the browse model. */
module KnowledgeTypes {
  import opened Common

  /** One card: its place in parse order, its heading path, its title and its trimmed content. */
  datatype KnowledgeCard = KnowledgeCard(
    id: nat,
    h1: string,
    h2: Option<string>,
    h3: Option<string>,
    title: string,
    content: string)

  /** h1 of content that precedes every `# ` heading. */
  const Uncategorized: string := "未分类"

  datatype FolderLevel = H1 | H2 | H3

  /** What the browsing view lists: a folder of cards sharing a heading value at one level,
      or a single card. A note's count is always null in the source, so it has no field; its title is
      `noteTitle` because the folder's title has another type. */
  datatype KnowledgeBrowseItem =
    | Folder(level: FolderLevel, title: Option<string>, count: nat)
    | Note(data: KnowledgeCard, noteTitle: string)
}
