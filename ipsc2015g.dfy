/**
 * The stand-alone solution of problem G (ipsc2015g.py). Its `Company` class is
 * the Deep engine built with a summary interval of 10; the answer to a puzzle
 * is the engine's total modulo 10^9 + 7.
 */
module StandaloneSolution {
  import opened Hierarchy
  import opened Events
  import opened DeepCompanyEngine

  const SummaryInterval: nat := 10
  const Modulus: int := 1000000007

  /** Build the company, process the event queue and reduce the total. */
  method Solve(numEmployees: nat, hierarchySpec: seq<int>, events: seq<Event>)
    returns (solution: int)
    requires ValidHierarchy(hierarchySpec) && numEmployees == |hierarchySpec| + 1
    requires ValidEvents(hierarchySpec, events)
    ensures solution == ExpectedTotal(hierarchySpec, events) % Modulus
    ensures 0 <= solution < Modulus
  {
    var company := new DeepCompany(SummaryInterval, numEmployees, hierarchySpec);
    var eventQueue := new EventList(events);
    var total := company.ProcessEventQueue(eventQueue);
    solution := total % Modulus;
  }
}
