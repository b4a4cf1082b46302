/** `ConfigService`: the GitHub user name, read once from the environment with a default, and
    the profile or repository URL built from it. */
module ConfigService {
  import opened Js

  const DefaultUsername := "jb9k62"
  const GithubPrefix := "https://github.com/"

  /** The service after construction; its one field is never reassigned. */
  datatype Config = Config(githubUsername: string)

  /** `new ConfigService()` with `process.env.GITHUB_USERNAME` as the argument. */
  function NewConfig(env: Option<string>): (c: Config)
    ensures Filled(env) ==> c.githubUsername == env.value
    ensures !Filled(env) ==> c.githubUsername == DefaultUsername
    ensures c.githubUsername != ""
  {
    Config(if Filled(env) then env.value else DefaultUsername)
  }

  /** The user name is the one the URLs the service builds name. */
  function GetGithubUsername(c: Config): (name: string)
    ensures GetGithubUrl(c, None) == GithubPrefix + name
  {
    c.githubUsername
  }

  function BaseUrl(c: Config): string
  {
    GithubPrefix + c.githubUsername
  }

  /** `getGithubUrl(repo)`: the profile URL, followed by "/" and the repository when the
      argument is truthy. */
  function GetGithubUrl(c: Config, repo: Option<string>): (url: string)
    ensures StartsWith(url, BaseUrl(c))
    ensures Filled(repo) ==> |url| == |BaseUrl(c)| + 1 + |repo.value|
    ensures !Filled(repo) ==> url == BaseUrl(c)
  {
    if Filled(repo) then BaseUrl(c) + "/" + repo.value else BaseUrl(c)
  }

  /** The repository a URL built for this configuration names, read back from it. */
  function RepoOf(c: Config, url: string): Option<string>
  {
    var base := BaseUrl(c) + "/";
    if StartsWith(url, base) && |url| > |base| then Some(url[|base|..]) else None
  }

  /** Reading the repository back from the URL gives the argument: a truthy repository
      round-trips, and the empty one is the same as none. */
  lemma {:induction false} RepoRoundTrip(c: Config, repo: Option<string>)
    ensures Filled(repo) ==> RepoOf(c, GetGithubUrl(c, repo)) == repo
    ensures !Filled(repo) ==> RepoOf(c, GetGithubUrl(c, repo)) == None
    ensures GetGithubUrl(c, Some("")) == GetGithubUrl(c, None)
  {
    var base := BaseUrl(c) + "/";
    if Filled(repo) {
      var url := GetGithubUrl(c, repo);
      assert url == base + repo.value;
      assert url[..|base|] == base;
      assert url[|base|..] == repo.value;
    }
  }

  /** The user name the service reports comes from the environment, or is the default. */
  lemma UsernameSource(env: Option<string>)
    ensures var name := GetGithubUsername(NewConfig(env));
      name != "" && (name == DefaultUsername || (env.Some? && name == env.value))
  {
  }
}
