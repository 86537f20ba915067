/**
 * The clients list page's `filterClients`: a schedule-pattern tab, then a
 * case-insensitive search on the client's name.
 */
module ClientsPage {
  import opened Basics
  import opened Records
  import opened Seqs

  /** The list's tabs. */
  datatype Tab = AllTab | SundayTab | SaturdayTab | CustomTab

  /** A client belongs under a tab: every client under All, otherwise the clients of that pattern. */
  predicate OnTab(tab: Tab, c: ClientRow) {
    match tab
    case AllTab => true
    case SundayTab => c.scheduleSet == SundaySet
    case SaturdayTab => c.scheduleSet == SaturdaySet
    case CustomTab => c.scheduleSet == CustomSet
  }

  /** `c.name.toLowerCase().includes(searchQuery.toLowerCase())`. */
  predicate NameMatches(c: ClientRow, query: string) {
    Includes(Lower(c.name), Lower(query))
  }

  function TabTest(tab: Tab): ClientRow -> bool {
    (c: ClientRow) => OnTab(tab, c)
  }

  function NameTest(query: string): ClientRow -> bool {
    (c: ClientRow) => NameMatches(c, query)
  }

  /** `filterClients`: the tab filter (none under All), then the name filter when the query is not empty. */
  function FilterClients(clients: seq<ClientRow>, tab: Tab, query: string): seq<ClientRow> {
    var byTab := if tab == AllTab then clients else Filter(clients, TabTest(tab));
    if query == "" then byTab else Filter(byTab, NameTest(query))
  }

  /** The one test the two filters amount to. */
  function Keep(tab: Tab, query: string): ClientRow -> bool {
    (c: ClientRow) => OnTab(tab, c) && (query == "" || NameMatches(c, query))
  }

  /** The two filters in a row are a single filter by both tests. */
  lemma FilterClientsIsOneFilter(clients: seq<ClientRow>, tab: Tab, query: string)
    ensures FilterClients(clients, tab, query) == Filter(clients, Keep(tab, query))
  {
    var keep := Keep(tab, query);
    if tab == AllTab {
      if query == "" {
        FilterAll(clients, keep);
      } else {
        FilterCongruent(clients, NameTest(query), keep);
      }
    } else {
      if query == "" {
        FilterCongruent(clients, TabTest(tab), keep);
      } else {
        FilterFilter(clients, TabTest(tab), NameTest(query));
        FilterCongruent(clients, (c: ClientRow) => TabTest(tab)(c) && NameTest(query)(c), keep);
      }
    }
  }

  /**
   * The list shown keeps exactly the clients under the tab whose name
   * contains the query, ignoring case (any name when the query is empty),
   * in the order they were loaded.
   */
  lemma FilterClientsSpec(clients: seq<ClientRow>, tab: Tab, query: string)
    ensures var r := FilterClients(clients, tab, query);
      && SubseqOf(r, clients)
      && (forall c :: c in r <==> c in clients && OnTab(tab, c) && (query == "" || NameMatches(c, query)))
      && (tab == AllTab && query == "" ==> r == clients)
  {
    FilterClientsIsOneFilter(clients, tab, query);
    FilterIsSubseq(clients, Keep(tab, query));
  }

  /** Filtering the shown list again with the same tab and query changes nothing. */
  lemma FilterClientsIdempotent(clients: seq<ClientRow>, tab: Tab, query: string)
    ensures FilterClients(FilterClients(clients, tab, query), tab, query) == FilterClients(clients, tab, query)
  {
    FilterClientsIsOneFilter(clients, tab, query);
    FilterClientsIsOneFilter(FilterClients(clients, tab, query), tab, query);
    FilterIdempotent(clients, Keep(tab, query));
  }

  /** The search ignores the case of the query: searching its lowercase form shows the same list. */
  lemma SearchIgnoresQueryCase(clients: seq<ClientRow>, tab: Tab, query: string)
    ensures FilterClients(clients, tab, Lower(query)) == FilterClients(clients, tab, query)
  {
    LowerIdempotent(query);
    FilterClientsIsOneFilter(clients, tab, query);
    FilterClientsIsOneFilter(clients, tab, Lower(query));
    FilterCongruent(clients, Keep(tab, Lower(query)), Keep(tab, query));
  }

  /** The pattern tabs split the All tab: every client is under exactly one of them. */
  lemma PatternTabsPartition(clients: seq<ClientRow>, query: string)
    ensures forall c :: c in FilterClients(clients, AllTab, query) <==>
      c in FilterClients(clients, SundayTab, query) || c in FilterClients(clients, SaturdayTab, query) ||
      c in FilterClients(clients, CustomTab, query)
    ensures forall c :: c in FilterClients(clients, SundayTab, query) ==>
      c !in FilterClients(clients, SaturdayTab, query) && c !in FilterClients(clients, CustomTab, query)
    ensures forall c :: c in FilterClients(clients, SaturdayTab, query) ==> c !in FilterClients(clients, CustomTab, query)
  {
    forall c ensures c in FilterClients(clients, AllTab, query) <==>
      c in FilterClients(clients, SundayTab, query) || c in FilterClients(clients, SaturdayTab, query) ||
      c in FilterClients(clients, CustomTab, query)
    {
      ShownOnTabs(clients, query, c);
    }
    forall c | c in FilterClients(clients, SundayTab, query)
      ensures c !in FilterClients(clients, SaturdayTab, query) && c !in FilterClients(clients, CustomTab, query)
    {
      ShownOnTabs(clients, query, c);
    }
    forall c | c in FilterClients(clients, SaturdayTab, query) ensures c !in FilterClients(clients, CustomTab, query) {
      ShownOnTabs(clients, query, c);
    }
  }

  /** Whether one client is shown under each tab. */
  lemma ShownOnTabs(clients: seq<ClientRow>, query: string, c: ClientRow)
    ensures var shown := c in clients && (query == "" || NameMatches(c, query));
      && (c in FilterClients(clients, AllTab, query) <==> shown)
      && (c in FilterClients(clients, SundayTab, query) <==> shown && c.scheduleSet == SundaySet)
      && (c in FilterClients(clients, SaturdayTab, query) <==> shown && c.scheduleSet == SaturdaySet)
      && (c in FilterClients(clients, CustomTab, query) <==> shown && c.scheduleSet == CustomSet)
  {
    FilterClientsSpec(clients, AllTab, query);
    FilterClientsSpec(clients, SundayTab, query);
    FilterClientsSpec(clients, SaturdayTab, query);
    FilterClientsSpec(clients, CustomTab, query);
  }
}
