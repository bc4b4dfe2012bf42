/**
 * The static job catalog of the ingest worker (Lambda_function.py):
 * `JOB_DESCRIPTIONS` and `CAREER_PATHS`.
 */
module JobCatalog {
  import opened Strings

  /** One catalog entry; `salary` is a free-form band. */
  datatype JobPosting = JobPosting(
    title: string,
    company: string,
    location: string,
    salary: string,
    description: string)

  /** `JOB_DESCRIPTIONS`, in the source's order (\U{20B9} is the rupee sign, \U{2013} an en dash). */
  const JobDescriptions: seq<JobPosting> := [
    JobPosting("Cloud Engineer", "Amazon Web Services", "Bangalore, India", "\U{20B9}12\U{2013}18 LPA",
               "AWS, Lambda, S3, EC2, DevOps, cloud infrastructure"),
    JobPosting("Data Analyst", "Accenture", "Chennai, India", "\U{20B9}6\U{2013}10 LPA",
               "SQL, Python, Excel, Power BI, data analysis"),
    JobPosting("Python Developer", "Infosys", "Remote", "\U{20B9}5\U{2013}9 LPA",
               "Python, Django, Flask, APIs, backend systems"),
    JobPosting("Machine Learning Engineer", "TCS", "Hyderabad", "\U{20B9}10\U{2013}16 LPA",
               "Machine learning, Python, NLP, AI systems"),
    JobPosting("Data Scientist", "IBM", "Bangalore", "\U{20B9}12\U{2013}20 LPA",
               "Statistics, Python, ML models, data science"),
    JobPosting("DevOps Engineer", "Wipro", "Pune", "\U{20B9}8\U{2013}14 LPA",
               "CI/CD, Docker, Kubernetes, AWS, DevOps"),
    JobPosting("Backend Developer", "Zoho", "Chennai", "\U{20B9}7\U{2013}12 LPA",
               "REST APIs, databases, Python, backend development"),
    JobPosting("AI Engineer", "Startups", "Remote", "\U{20B9}15\U{2013}25 LPA",
               "AI pipelines, embeddings, NLP, LLMs"),
    JobPosting("Software Engineer", "Google", "Hyderabad", "\U{20B9}20\U{2013}30 LPA",
               "Software engineering, problem solving, system design"),
    JobPosting("Business Analyst", "Deloitte", "Mumbai", "\U{20B9}6\U{2013}11 LPA",
               "Business analysis, analytics, stakeholder management")
  ]

  /** `CAREER_PATHS` (\U{2192} is a right arrow). */
  const CareerPaths: map<string, string> := map[
    "Cloud Engineer" := "AWS Architect \U{2192} DevOps Lead \U{2192} Cloud Manager",
    "Data Analyst" := "Senior Analyst \U{2192} Data Scientist \U{2192} Analytics Manager",
    "Python Developer" := "Backend Engineer \U{2192} Full Stack Developer \U{2192} Tech Lead",
    "Machine Learning Engineer" := "ML Engineer \U{2192} AI Architect \U{2192} AI Lead",
    "Data Scientist" := "Senior DS \U{2192} AI Scientist \U{2192} Head of Data"
  ]

  /** The placeholder used for a title without an entry. */
  const DefaultCareerPath: string := "Career growth path"

  /** `CAREER_PATHS.get(title, "Career growth path")` */
  function CareerPathFor(title: string): string
  {
    if title in CareerPaths then CareerPaths[title] else DefaultCareerPath
  }

  /** Ten postings whose titles identify them. */
  lemma CatalogTitlesDistinct()
    ensures |JobDescriptions| == 10
    ensures forall i, j :: 0 <= i < j < |JobDescriptions| ==> JobDescriptions[i].title != JobDescriptions[j].title
  {
  }

  /**
   * The first five postings have their own career path; the other five get the
   * placeholder, and every key of the map is a catalog title.
   */
  lemma CareerPathCoverage()
    ensures forall i :: 0 <= i < |JobDescriptions| ==>
      (JobDescriptions[i].title in CareerPaths <==> i < 5)
    ensures forall i :: 5 <= i < |JobDescriptions| ==>
      CareerPathFor(JobDescriptions[i].title) == DefaultCareerPath
    ensures forall t :: t in CareerPaths ==> exists i :: 0 <= i < 5 && JobDescriptions[i].title == t
  {
    assert CareerPaths.Keys == {
      JobDescriptions[0].title, JobDescriptions[1].title, JobDescriptions[2].title,
      JobDescriptions[3].title, JobDescriptions[4].title };
  }
}
